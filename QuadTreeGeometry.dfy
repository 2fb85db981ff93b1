/** Rectangles, entities and the root-growth arithmetic of `QuadTree.Insert`.

    Coordinates are exact integers. A rectangle is given by its anchor corner
    (`x`, `y`) and its opposite corner (`right`, `top`). */
module Geometry {

  datatype Rect = Rect(x: int, y: int, right: int, top: int)
  {
    function Width(): int { right - x }
    function Height(): int { top - y }

    /** `Contains`: `b` lies inside this rectangle, touching edges allowed. */
    predicate Contains(b: Rect)
    {
      x <= b.x && b.right <= right && y <= b.y && b.top <= top
    }

    /** `IntersectsWith`: `b` and this rectangle overlap, touching edges allowed. */
    predicate IntersectsWith(b: Rect)
    {
      x <= b.right && b.x <= right && y <= b.top && b.y <= top
    }
  }

  /** Positive width and height: growth only makes progress for such a root. */
  predicate HasArea(r: Rect)
  {
    r.Width() > 0 && r.Height() > 0
  }

  /** An indexed value: its bounding rectangle and whether it is a point.
      `key` tells apart entities with the same geometry. */
  datatype Entity = Entity(key: int, rect: Rect, isPoint: bool)

  /** The selection convention for queries and region removal: crossing
      selection (any overlap) or window selection (fully inside). */
  datatype SelectMode = IntersectsWith | Contains

  /** Whether `e` is selected by the region `rect` under `mode`. */
  predicate Selects(rect: Rect, mode: SelectMode, e: Entity)
  {
    match mode
    case IntersectsWith => e.rect.IntersectsWith(rect)
    case Contains => rect.Contains(e.rect)
  }

  /** The four quadrants of a node's bound, and the four growth directions. */
  datatype Quadrant = LeftTop | RightTop | LeftBottom | RightBottom

  datatype Growth = UpRight | UpLeft | DownRight | DownLeft

  /** The direction the root grows toward `e`: up iff `e` is not below the
      root's anchor, right iff it is not left of it. */
  function Direction(root: Rect, e: Rect): (g: Growth)
    ensures (g == UpRight || g == UpLeft) <==> e.y >= root.y
    ensures (g == UpRight || g == DownRight) <==> e.x >= root.x
  {
    if e.y >= root.y then
      if e.x >= root.x then UpRight else UpLeft
    else
      if e.x >= root.x then DownRight else DownLeft
  }

  /** The bound of the new root: the old bound extended by its own width and
      height toward `e`. Width and height double exactly; the new bound keeps
      the old bottom edge iff `e.y >= root.y` and the old left edge iff
      `e.x >= root.x`, and extends the opposite edges. */
  function GrowBound(root: Rect, e: Rect): (n: Rect)
    ensures n.Width() == 2 * root.Width() && n.Height() == 2 * root.Height()
    ensures e.y >= root.y ==> n.y == root.y && n.top == root.top + root.Height()
    ensures e.y < root.y ==> n.top == root.top && n.y == root.y - root.Height()
    ensures e.x >= root.x ==> n.x == root.x && n.right == root.right + root.Width()
    ensures e.x < root.x ==> n.right == root.right && n.x == root.x - root.Width()
  {
    var w, h := root.Width(), root.Height();
    match Direction(root, e)
    case UpRight => Rect(root.x, root.y, root.right + w, root.top + h)
    case UpLeft => Rect(root.x - w, root.y, root.right, root.top + h)
    case DownRight => Rect(root.x, root.y - h, root.right + w, root.top)
    case DownLeft => Rect(root.x - w, root.y - h, root.right, root.top)
  }

  /** Quadrant `q` of a rectangle whose width and height are even. */
  function QuadrantOf(r: Rect, q: Quadrant): Rect
  {
    var mx, my := r.x + r.Width() / 2, r.y + r.Height() / 2;
    match q
    case LeftTop => Rect(r.x, my, mx, r.top)
    case RightTop => Rect(mx, my, r.right, r.top)
    case LeftBottom => Rect(r.x, r.y, mx, my)
    case RightBottom => Rect(mx, r.y, r.right, my)
  }

  /** The quadrant that stays where it was when the root grows in direction `g`. */
  function Opposite(g: Growth): Quadrant
  {
    match g
    case UpRight => LeftBottom
    case UpLeft => RightBottom
    case DownRight => LeftTop
    case DownLeft => RightTop
  }

  /** The old bound is exactly the quadrant of the new bound opposite the
      growth direction, so it is contained in the new bound. */
  lemma GrowKeepsOldQuadrant(root: Rect, e: Rect)
    ensures QuadrantOf(GrowBound(root, e), Opposite(Direction(root, e))) == root
  {
    var n := GrowBound(root, e);
    assert n.Width() / 2 == root.Width() && n.Height() / 2 == root.Height();
  }

  lemma GrowContainsOld(root: Rect, e: Rect)
    requires root.Width() >= 0 && root.Height() >= 0
    ensures GrowBound(root, e).Contains(root)
  {
  }

  /** How far `e` sticks out of `root`, summed over the four sides. */
  function Excess(root: Rect, e: Rect): (n: nat)
    ensures n == 0 <==> root.Contains(e)
  {
    Pos(root.x - e.x) + Pos(e.right - root.right) + Pos(root.y - e.y) + Pos(e.top - root.top)
  }

  function Pos(n: int): nat
  {
    if n > 0 then n else 0
  }

  /** A growth step toward an entity outside a root with area brings the
      entity strictly closer to being contained, and the new root has area. */
  lemma GrowProgress(root: Rect, e: Rect)
    requires HasArea(root) && !root.Contains(e)
    ensures HasArea(GrowBound(root, e))
    ensures Excess(GrowBound(root, e), e) < Excess(root, e)
  {
  }

  // ---------------------------------------------------------------------------
  // Selecting and removing entities

  /** The entities of `es` that `rect` selects under `mode`, in order. */
  function Selected(es: seq<Entity>, rect: Rect, mode: SelectMode): (r: seq<Entity>)
    ensures |r| <= |es|
  {
    if es == [] then []
    else (if Selects(rect, mode, es[0]) then [es[0]] else []) + Selected(es[1..], rect, mode)
  }

  /** An entity is selected exactly when it is one of `es` that `rect` selects. */
  lemma {:induction false} SelectedExactly(es: seq<Entity>, rect: Rect, mode: SelectMode, x: Entity)
    ensures x in Selected(es, rect, mode) <==> x in es && Selects(rect, mode, x)
    decreases |es|
  {
    if es != [] {
      SelectedExactly(es[1..], rect, mode, x);
      assert es == [es[0]] + es[1..];
    }
  }

  /** The entities of `es` that `rect` does not select under `mode`, in order. */
  function Unselected(es: seq<Entity>, rect: Rect, mode: SelectMode): (r: seq<Entity>)
    ensures |r| <= |es|
  {
    if es == [] then []
    else (if Selects(rect, mode, es[0]) then [] else [es[0]]) + Unselected(es[1..], rect, mode)
  }

  /** An entity is kept exactly when it is one of `es` that `rect` does not select. */
  lemma {:induction false} UnselectedExactly(es: seq<Entity>, rect: Rect, mode: SelectMode, x: Entity)
    ensures x in Unselected(es, rect, mode) <==> x in es && !Selects(rect, mode, x)
    decreases |es|
  {
    if es != [] {
      UnselectedExactly(es[1..], rect, mode, x);
      assert es == [es[0]] + es[1..];
    }
  }

  lemma {:induction false} SelectedAppend(a: seq<Entity>, b: seq<Entity>, rect: Rect, mode: SelectMode)
    ensures Selected(a + b, rect, mode) == Selected(a, rect, mode) + Selected(b, rect, mode)
    decreases |a|
  {
    if a == [] {
      assert a + b == b;
    } else {
      assert (a + b)[0] == a[0];
      assert (a + b)[1..] == a[1..] + b;
      SelectedAppend(a[1..], b, rect, mode);
      var h := if Selects(rect, mode, a[0]) then [a[0]] else [];
      calc {
        Selected(a + b, rect, mode);
        h + Selected(a[1..] + b, rect, mode);
        h + (Selected(a[1..], rect, mode) + Selected(b, rect, mode));
        (h + Selected(a[1..], rect, mode)) + Selected(b, rect, mode);
      }
    }
  }

  lemma {:induction false} UnselectedAppend(a: seq<Entity>, b: seq<Entity>, rect: Rect, mode: SelectMode)
    ensures Unselected(a + b, rect, mode) == Unselected(a, rect, mode) + Unselected(b, rect, mode)
    decreases |a|
  {
    if a == [] {
      assert a + b == b;
    } else {
      assert (a + b)[0] == a[0];
      assert (a + b)[1..] == a[1..] + b;
      UnselectedAppend(a[1..], b, rect, mode);
      var h := if Selects(rect, mode, a[0]) then [] else [a[0]];
      calc {
        Unselected(a + b, rect, mode);
        h + Unselected(a[1..] + b, rect, mode);
        h + (Unselected(a[1..], rect, mode) + Unselected(b, rect, mode));
        (h + Unselected(a[1..], rect, mode)) + Unselected(b, rect, mode);
      }
    }
  }

  /** The selected and the unselected entities are, together, exactly the original ones. */
  lemma {:induction false} SelectionSplits(es: seq<Entity>, rect: Rect, mode: SelectMode)
    ensures multiset(Selected(es, rect, mode)) + multiset(Unselected(es, rect, mode)) == multiset(es)
    decreases |es|
  {
    if es != [] {
      SelectionSplits(es[1..], rect, mode);
      assert es == [es[0]] + es[1..];
      assert multiset(es) == multiset{es[0]} + multiset(es[1..]);
      if Selects(rect, mode, es[0]) {
        assert Selected(es, rect, mode) == [es[0]] + Selected(es[1..], rect, mode);
        assert Unselected(es, rect, mode) == Unselected(es[1..], rect, mode);
      } else {
        assert Selected(es, rect, mode) == Selected(es[1..], rect, mode);
        assert Unselected(es, rect, mode) == [es[0]] + Unselected(es[1..], rect, mode);
      }
    }
  }

  /** `es` without its first occurrence of `e` (`List.Remove`). */
  function RemoveFirst(es: seq<Entity>, e: Entity): (r: seq<Entity>)
    ensures e !in es ==> r == es
  {
    if es == [] then []
    else if es[0] == e then es[1..] else [es[0]] + RemoveFirst(es[1..], e)
  }

  /** Removing an entity that occurs takes exactly one copy of it away. */
  lemma {:induction false} RemoveFirstOne(es: seq<Entity>, e: Entity)
    requires e in es
    ensures |RemoveFirst(es, e)| == |es| - 1
    ensures multiset(RemoveFirst(es, e)) == multiset(es) - multiset{e}
    decreases |es|
  {
    assert es == [es[0]] + es[1..];
    if es[0] != e {
      RemoveFirstOne(es[1..], e);
    }
  }

  lemma {:induction false} RemoveFirstAppend(a: seq<Entity>, b: seq<Entity>, e: Entity)
    ensures RemoveFirst(a + b, e) == if e in a then RemoveFirst(a, e) + b else a + RemoveFirst(b, e)
    decreases |a|
  {
    if a == [] {
      assert a + b == b;
    } else {
      assert (a + b)[0] == a[0] && (a + b)[1..] == a[1..] + b;
      if a[0] != e {
        RemoveFirstAppend(a[1..], b, e);
        assert a == [a[0]] + a[1..];
        assert e in a <==> e in a[1..];
        if e in a {
          assert RemoveFirst(a + b, e) == [a[0]] + (RemoveFirst(a[1..], e) + b);
        } else {
          assert RemoveFirst(a + b, e) == [a[0]] + (a[1..] + RemoveFirst(b, e));
        }
      }
    }
  }
}
