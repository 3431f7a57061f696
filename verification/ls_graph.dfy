/**
 * The topology a link-state router has learned, seen as a weighted directed
 * graph, with paths, their costs, reachability and shortest distances. These
 * are the reference definitions the shortest-path computation is proved
 * against.
 */
module LsGraph {
  import opened Common

  /** Every link-state advertisement held, keyed by its originator. */
  type LsaTable = map<RouterId, Links>

  /** The nodes are the originators; u -> v is an edge when v appears in u's
      link map and is itself an originator. */
  predicate Edge(lsa: LsaTable, u: RouterId, v: RouterId)
  {
    u in lsa && v in lsa && v in lsa[u]
  }

  /** Consecutive nodes of `p` are joined by edges. */
  ghost predicate IsWalk(lsa: LsaTable, p: seq<RouterId>)
  {
    forall i :: 0 <= i < |p| - 1 ==> Edge(lsa, p[i], p[i + 1])
  }

  /** `p` is a path from `src` to `dst` (a lone node is the empty path). */
  ghost predicate IsPathTo(lsa: LsaTable, src: RouterId, dst: RouterId, p: seq<RouterId>)
  {
    |p| >= 1 && p[0] == src && p[|p| - 1] == dst && IsWalk(lsa, p)
  }

  /** The sum of the link costs along a walk. */
  ghost function PathCost(lsa: LsaTable, p: seq<RouterId>): nat
    requires IsWalk(lsa, p)
    decreases |p|
  {
    if |p| <= 1 then 0
    else
      PrefixIsWalk(lsa, p, |p| - 1);
      assert Edge(lsa, p[|p| - 2], p[|p| - 1]);
      PathCost(lsa, p[..|p| - 1]) + lsa[p[|p| - 2]][p[|p| - 1]]
  }

  ghost predicate Reachable(lsa: LsaTable, src: RouterId, dst: RouterId)
  {
    exists p :: IsPathTo(lsa, src, dst, p)
  }

  /** No path from `src` to `dst` costs less than `c`. */
  ghost predicate NoShorterPath(lsa: LsaTable, src: RouterId, dst: RouterId, c: nat)
  {
    forall p :: IsPathTo(lsa, src, dst, p) ==> c <= PathCost(lsa, p)
  }

  /** `c` is the cost of a cheapest path from `src` to `dst`. */
  ghost predicate IsShortestDistance(lsa: LsaTable, src: RouterId, dst: RouterId, c: nat)
  {
    && (exists p :: IsPathTo(lsa, src, dst, p) && PathCost(lsa, p) == c)
    && NoShorterPath(lsa, src, dst, c)
  }

  /** `p` is a cheapest path from `src` to `dst`. */
  ghost predicate IsShortestPath(lsa: LsaTable, src: RouterId, dst: RouterId, p: seq<RouterId>)
  {
    IsPathTo(lsa, src, dst, p) && NoShorterPath(lsa, src, dst, PathCost(lsa, p))
  }

  lemma PrefixIsWalk(lsa: LsaTable, p: seq<RouterId>, k: nat)
    requires IsWalk(lsa, p) && 1 <= k <= |p|
    ensures IsWalk(lsa, p[..k])
  {
    forall i | 0 <= i < k - 1
      ensures Edge(lsa, p[..k][i], p[..k][i + 1])
    {
      assert Edge(lsa, p[i], p[i + 1]);
    }
  }

  /** A prefix of a walk costs no more than the whole walk. */
  lemma {:induction false} PrefixCost(lsa: LsaTable, p: seq<RouterId>, k: nat)
    requires IsWalk(lsa, p) && 1 <= k <= |p|
    ensures IsWalk(lsa, p[..k]) && PathCost(lsa, p[..k]) <= PathCost(lsa, p)
    decreases |p| - k
  {
    PrefixIsWalk(lsa, p, k);
    if k < |p| {
      PrefixCost(lsa, p, k + 1);
      PrefixIsWalk(lsa, p, k + 1);
      assert p[..k + 1][..k] == p[..k];
    } else {
      assert p[..k] == p;
    }
  }

  /** Extending a walk by one edge adds that edge's cost. */
  lemma ExtendWalk(lsa: LsaTable, p: seq<RouterId>, v: RouterId)
    requires IsWalk(lsa, p) && |p| >= 1 && Edge(lsa, p[|p| - 1], v)
    ensures IsWalk(lsa, p + [v])
    ensures PathCost(lsa, p + [v]) == PathCost(lsa, p) + lsa[p[|p| - 1]][v]
  {
    var q := p + [v];
    forall i | 0 <= i < |q| - 1
      ensures Edge(lsa, q[i], q[i + 1])
    {
      if i < |p| - 1 {
        assert Edge(lsa, p[i], p[i + 1]);
      }
    }
    assert q[..|q| - 1] == p;
  }

  /** A sequence that starts inside a set and ends outside it crosses the
      boundary at some step. */
  lemma {:induction false} Crossing(p: seq<RouterId>, inside: set<RouterId>) returns (j: nat)
    requires |p| >= 1 && p[0] in inside && p[|p| - 1] !in inside
    ensures 1 <= j < |p| && p[j - 1] in inside && p[j] !in inside
    decreases |p|
  {
    if p[|p| - 2] in inside {
      j := |p| - 1;
    } else {
      j := Crossing(p[..|p| - 1], inside);
    }
  }
}
