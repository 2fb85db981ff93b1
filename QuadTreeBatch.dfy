/** The order in which a batch insertion visits its entities: first those
    that are not points, then the points, each group in its original order. */
module Batches {
  import opened Geometry

  /** The entities among the first `n` of `es` that are not points, in order. */
  function NonPointsTo(es: seq<Entity>, n: nat): seq<Entity>
    requires n <= |es|
  {
    if n == 0 then []
    else if es[n - 1].isPoint then NonPointsTo(es, n - 1)
    else NonPointsTo(es, n - 1) + [es[n - 1]]
  }

  /** The entities among the first `n` of `es` that are points, in order. */
  function PointsTo(es: seq<Entity>, n: nat): seq<Entity>
    requires n <= |es|
  {
    if n == 0 then []
    else if es[n - 1].isPoint then PointsTo(es, n - 1) + [es[n - 1]]
    else PointsTo(es, n - 1)
  }

  /** The order in which `Insert(ents)` inserts: the entities that are not
      points first, then the points, each group in its original order. */
  function BatchOrder(es: seq<Entity>): seq<Entity>
  {
    NonPointsTo(es, |es|) + PointsTo(es, |es|)
  }

  /** The first group holds no point and the second only points. */
  lemma {:induction false} GroupKinds(es: seq<Entity>, n: nat)
    requires n <= |es|
    ensures forall k | 0 <= k < |NonPointsTo(es, n)| :: !NonPointsTo(es, n)[k].isPoint
    ensures forall k | 0 <= k < |PointsTo(es, n)| :: PointsTo(es, n)[k].isPoint
  {
    if n > 0 {
      GroupKinds(es, n - 1);
    }
  }

  /** Together the two groups are as long as the first `n` entities. */
  lemma {:induction false} GroupsLength(es: seq<Entity>, n: nat)
    requires n <= |es|
    ensures |NonPointsTo(es, n)| + |PointsTo(es, n)| == n
  {
    if n > 0 {
      GroupsLength(es, n - 1);
    }
  }

  /** Together the two groups hold the first `n` entities. */
  lemma {:induction false} GroupsPermute(es: seq<Entity>, n: nat)
    requires n <= |es|
    ensures multiset(NonPointsTo(es, n)) + multiset(PointsTo(es, n)) == multiset(es[..n])
  {
    if n > 0 {
      GroupsPermute(es, n - 1);
      GroupStep(es, n);
    }
  }

  /** One step of the permutation: the entity at `n - 1` joins one of the
      two groups. */
  lemma {:induction false} GroupStep(es: seq<Entity>, n: nat)
    requires 0 < n <= |es|
    requires multiset(NonPointsTo(es, n - 1)) + multiset(PointsTo(es, n - 1)) == multiset(es[..n - 1])
    ensures multiset(NonPointsTo(es, n)) + multiset(PointsTo(es, n)) == multiset(es[..n])
  {
    TakeSnoc(es, n - 1);
    if es[n - 1].isPoint {
      JoinGroup(NonPointsTo(es, n - 1), PointsTo(es, n - 1), es[..n - 1], es[n - 1]);
    } else {
      JoinGroup(PointsTo(es, n - 1), NonPointsTo(es, n - 1), es[..n - 1], es[n - 1]);
    }
  }

  /** An element that joins one of two groups joins their union. */
  lemma JoinGroup(a: seq<Entity>, b: seq<Entity>, c: seq<Entity>, e: Entity)
    requires multiset(a) + multiset(b) == multiset(c)
    ensures multiset(a) + multiset(b + [e]) == multiset(c + [e])
    ensures multiset(b + [e]) + multiset(a) == multiset(c + [e])
  {
  }

  /** A prefix one longer is the prefix and the next element. */
  lemma TakeSnoc(s: seq<Entity>, n: nat)
    requires n < |s|
    ensures s[..n + 1] == s[..n] + [s[n]]
  {
  }

  /** Batch insertion inserts every entity exactly once. */
  lemma BatchPermutes(es: seq<Entity>)
    ensures |BatchOrder(es)| == |es| && multiset(BatchOrder(es)) == multiset(es)
  {
    GroupsLength(es, |es|);
    GroupsPermute(es, |es|);
    assert es[..|es|] == es;
  }

  /** The entities of a prefix that are not points come first in the batch. */
  lemma {:induction false} GroupPrefix(es: seq<Entity>, i: nat, n: nat)
    requires i <= n <= |es|
    ensures |NonPointsTo(es, i)| <= |NonPointsTo(es, n)|
    ensures forall k | 0 <= k < |NonPointsTo(es, i)| :: NonPointsTo(es, n)[k] == NonPointsTo(es, i)[k]
  {
    if n > i {
      GroupPrefix(es, i, n - 1);
    }
  }

  /** The first pass meets the entity at `i`, not a point, at its place in the batch. */
  lemma NextShape(es: seq<Entity>, i: nat)
    requires i < |es| && !es[i].isPoint
    ensures |NonPointsTo(es, i)| < |NonPointsTo(es, |es|)|
    ensures BatchOrder(es)[|NonPointsTo(es, i)|] == es[i]
  {
    GroupPrefix(es, i + 1, |es|);
    assert NonPointsTo(es, i + 1) == NonPointsTo(es, i) + [es[i]];
  }

  /** The `j`-th point comes after all entities that are not points. */
  lemma NextPoint(es: seq<Entity>, j: nat)
    requires j < |PointsTo(es, |es|)|
    ensures BatchOrder(es)[|NonPointsTo(es, |es|)| + j] == PointsTo(es, |es|)[j]
  {
  }
}
