/**
 * The link-state router's route computation: Dijkstra's single-source
 * shortest-path algorithm over the held advertisements, the walk up the
 * predecessor chain that yields a next hop, and the loop that fills the
 * forwarding table from the predecessors.
 *
 * Infinity is a missing key of `dist`; "no predecessor" is a missing key of
 * `prev`.
 */
module ShortestPaths {
  import opened Common
  import opened LsGraph

  /** The min-selection scan: keeps the first unvisited node seen with a
      strictly smaller finite distance. Which of several nodes at the minimum
      distance wins depends on the set's iteration order and is left open. */
  method SelectMin(notVisited: set<RouterId>, dist: map<RouterId, Cost>) returns (found: Option<RouterId>)
    ensures found.None? ==> forall v :: v in notVisited ==> v !in dist
    ensures found.Some? ==>
              && found.value in notVisited && found.value in dist
              && forall v :: v in notVisited && v in dist ==> dist[found.value] <= dist[v]
  {
    found := None;
    var rest := notVisited;
    while rest != {}
      invariant rest <= notVisited
      invariant found.None? ==> forall v :: v in notVisited - rest ==> v !in dist
      invariant found.Some? ==>
                  && found.value in notVisited && found.value in dist
                  && forall v :: v in notVisited - rest && v in dist ==> dist[found.value] <= dist[v]
      decreases rest
    {
      // a set being nonempty does not by itself tell the verifier that an
      // element exists; naming one first lets the choice below go through
      ghost var w := Pick(rest);
      var v :| v in rest;
      rest := rest - {v};
      if v in dist && (found.None? || dist[v] < dist[found.value]) {
        found := Some(v);
      }
    }
  }

  /** The nodes whose tentative distance improves by going through `u`. */
  function Improved(edges: Links, du: Cost, notVisited: set<RouterId>, dist: map<RouterId, Cost>): set<RouterId>
  {
    set v | v in edges && v in notVisited && (v !in dist || du + edges[v] < dist[v])
  }

  /** Relaxes the edges `edges` leaving the node `u` just visited, at
      distance `du`, towards the nodes still unvisited. */
  function Relax(edges: Links, u: RouterId, du: Cost, notVisited: set<RouterId>,
                 dist: map<RouterId, Cost>, prev: map<RouterId, RouterId>): (r: (map<RouterId, Cost>, map<RouterId, RouterId>))
    ensures r.0.Keys == dist.Keys + (edges.Keys * notVisited)
    // visited nodes are frozen
    ensures forall v :: v !in notVisited ==> KeptAt(dist, r.0, v) && KeptAt(prev, r.1, v)
    ensures forall v :: v in dist ==> r.0[v] <= dist[v]
    ensures forall v :: v in edges && v in notVisited ==> r.0[v] <= du + edges[v]
    ensures forall v :: Changed(dist, r.0, v) ==>
              v in edges && v in notVisited && r.0[v] == du + edges[v] && v in r.1 && r.1[v] == u
    ensures forall v :: !Changed(dist, r.0, v) ==> KeptAt(prev, r.1, v)
  {
    var better := Improved(edges, du, notVisited, dist);
    var r := (dist + map v | v in better :: du + edges[v], prev + map v | v in better :: u);
    RelaxFacts(edges, u, du, notVisited, dist, prev, r);
    r
  }

  lemma RelaxFacts(edges: Links, u: RouterId, du: Cost, notVisited: set<RouterId>,
                   dist: map<RouterId, Cost>, prev: map<RouterId, RouterId>, r: (map<RouterId, Cost>, map<RouterId, RouterId>))
    requires var better := Improved(edges, du, notVisited, dist);
             r == (dist + map v | v in better :: du + edges[v], prev + map v | v in better :: u)
    ensures r.0.Keys == dist.Keys + (edges.Keys * notVisited)
    ensures forall v :: v !in notVisited ==> KeptAt(dist, r.0, v) && KeptAt(prev, r.1, v)
    ensures forall v :: v in dist ==> r.0[v] <= dist[v]
    ensures forall v :: v in edges && v in notVisited ==> r.0[v] <= du + edges[v]
    ensures forall v :: Changed(dist, r.0, v) ==>
              v in edges && v in notVisited && r.0[v] == du + edges[v] && v in r.1 && r.1[v] == u
    ensures forall v :: !Changed(dist, r.0, v) ==> KeptAt(prev, r.1, v)
  {
    var better := Improved(edges, du, notVisited, dist);
    assert forall v :: Changed(dist, r.0, v) <==> v in better;
  }

  /** Each recorded predecessor was visited, is joined to its node by an
      edge, and accounts exactly for the node's distance; a visited node's
      predecessor was visited before it. */
  ghost predicate PrevStep(lsa: LsaTable, dist: map<RouterId, Cost>, prev: map<RouterId, RouterId>,
                           rank: map<RouterId, nat>, v: RouterId)
    requires v in prev
  {
    && prev[v] in rank && v in dist && prev[v] in dist
    && Edge(lsa, prev[v], v)
    && dist[v] == dist[prev[v]] + lsa[prev[v]][v]
    && (v in rank ==> rank[prev[v]] < rank[v])
  }

  /** The visited nodes are the originators no longer in `notVisited`;
      `rank` records the step at which each was picked and `step` counts the
      picks, so each node is picked at most once. */
  ghost predicate Visits(lsa: LsaTable, notVisited: set<RouterId>, rank: map<RouterId, nat>, step: nat)
  {
    && notVisited <= lsa.Keys
    && rank.Keys == lsa.Keys - notVisited
    && step + |notVisited| == |lsa.Keys|
    && (forall v :: v in rank ==> rank[v] < step)
    && (forall v, w :: v in rank && w in rank && v != w ==> rank[v] != rank[w])
  }

  /** `self` is at distance 0, only originators (and `self`) get distances,
      visited nodes have one, and every node but `self` with a distance has
      a predecessor. */
  ghost predicate Tentative(lsa: LsaTable, self: RouterId, dist: map<RouterId, Cost>,
                            prev: map<RouterId, RouterId>, rank: map<RouterId, nat>)
  {
    && self in dist && dist[self] == 0
    && dist.Keys <= lsa.Keys + {self}
    && rank.Keys <= dist.Keys
    && prev.Keys == dist.Keys - {self}
  }

  ghost predicate PrevSteps(lsa: LsaTable, dist: map<RouterId, Cost>, prev: map<RouterId, RouterId>, rank: map<RouterId, nat>)
  {
    forall v :: v in prev ==> PrevStep(lsa, dist, prev, rank, v)
  }

  /** Visited distances are final. */
  ghost predicate Settled(lsa: LsaTable, self: RouterId, dist: map<RouterId, Cost>, rank: map<RouterId, nat>)
  {
    forall x :: x in rank ==> x in dist && NoShorterPath(lsa, self, x, dist[x])
  }

  /** Every edge out of the visited set has been relaxed. */
  ghost predicate Frontier(lsa: LsaTable, notVisited: set<RouterId>, dist: map<RouterId, Cost>, rank: map<RouterId, nat>)
  {
    forall x, y :: x in rank && y in notVisited && Edge(lsa, x, y) ==>
      x in dist && y in dist && dist[y] <= dist[x] + lsa[x][y]
  }

  /** The main loop's invariant. */
  ghost predicate Inv(lsa: LsaTable, self: RouterId, notVisited: set<RouterId>,
                      dist: map<RouterId, Cost>, prev: map<RouterId, RouterId>,
                      rank: map<RouterId, nat>, step: nat)
  {
    && Visits(lsa, notVisited, rank, step)
    && Tentative(lsa, self, dist, prev, rank)
    && PrevSteps(lsa, dist, prev, rank)
    && Settled(lsa, self, dist, rank)
    && Frontier(lsa, notVisited, dist, rank)
  }

  /** The predecessor map as the algorithm leaves it: each predecessor edge
      accounts exactly for its node's distance. */
  ghost predicate PrevConsistent(lsa: LsaTable, self: RouterId, dist: map<RouterId, Cost>, prev: map<RouterId, RouterId>)
  {
    && self in dist && dist[self] == 0
    && prev.Keys == dist.Keys - {self}
    && forall v :: v in prev ==>
         prev[v] in dist && Edge(lsa, prev[v], v) && dist[v] == dist[prev[v]] + lsa[prev[v]][v]
  }

  /** Every predecessor chain climbs strictly down the visit order and ends
      at `self`, so walking it terminates. */
  ghost predicate PrevRanked(prev: map<RouterId, RouterId>, self: RouterId, rank: map<RouterId, nat>)
  {
    && self !in prev
    && forall v :: v in prev ==>
         v in rank && (prev[v] == self || (prev[v] in prev && prev[v] in rank && rank[prev[v]] < rank[v]))
  }

  /** Dijkstra's algorithm from `self` over the graph of `lsa`. Besides the
      distances and predecessors it returns, as ghost results, the visit order
      and the number of loop iterations. */
  method Dijkstra(lsa: LsaTable, self: RouterId)
    returns (dist: map<RouterId, Cost>, prev: map<RouterId, RouterId>, ghost rank: map<RouterId, nat>, ghost iterations: nat)
    ensures PrevConsistent(lsa, self, dist, prev)
    ensures PrevRanked(prev, self, rank)
    ensures forall v :: v in dist ==> IsShortestDistance(lsa, self, v, dist[v])
    ensures forall v :: v !in dist ==> !Reachable(lsa, self, v)
    ensures iterations <= |lsa.Keys|
    ensures forall v :: v in rank ==> v in lsa && rank[v] < iterations
    ensures forall v, w :: v in rank && w in rank && v != w ==> rank[v] != rank[w]
  {
    var notVisited := lsa.Keys;
    dist := map[self := 0];
    prev := map[];
    rank := map[];
    iterations := 0;
    while notVisited != {}
      invariant Inv(lsa, self, notVisited, dist, prev, rank, iterations)
      decreases |notVisited|
    {
      var found := SelectMin(notVisited, dist);
      if found.None? {
        break;
      }
      var u := found.value;
      VisitKeepsInv(lsa, self, notVisited, dist, prev, rank, iterations, u);
      notVisited := notVisited - {u};
      var relaxed := Relax(lsa[u], u, dist[u], notVisited, dist, prev);
      dist, prev := relaxed.0, relaxed.1;
      rank := rank[u := iterations];
      iterations := iterations + 1;
    }
    FinalFacts(lsa, self, notVisited, dist, prev, rank, iterations);
  }

  /** The minimum-distance unvisited node is at its true distance. */
  lemma MinIsFinal(lsa: LsaTable, self: RouterId, notVisited: set<RouterId>,
                   dist: map<RouterId, Cost>, prev: map<RouterId, RouterId>,
                   rank: map<RouterId, nat>, step: nat, u: RouterId)
    requires Inv(lsa, self, notVisited, dist, prev, rank, step)
    requires u in notVisited && u in dist
    requires forall v :: v in notVisited && v in dist ==> dist[u] <= dist[v]
    ensures NoShorterPath(lsa, self, u, dist[u])
  {
    forall p | IsPathTo(lsa, self, u, p)
      ensures dist[u] <= PathCost(lsa, p)
    {
      if self in notVisited {
        assert dist[u] <= dist[self];
      } else {
        assert |p| >= 2 && Edge(lsa, p[0], p[1]);
        assert self in rank.Keys;
        var j := Crossing(p, rank.Keys);
        var x, y := p[j - 1], p[j];
        assert Edge(lsa, x, y);
        assert y in notVisited;
        PrefixCost(lsa, p, j);
        PrefixCost(lsa, p, j + 1);
        assert IsPathTo(lsa, self, x, p[..j]);
        assert dist[x] <= PathCost(lsa, p[..j]);
        assert p[..j + 1] == p[..j] + [y];
        ExtendWalk(lsa, p[..j], y);
        assert dist[y] <= dist[x] + lsa[x][y];
      }
    }
  }

  /** One iteration of the main loop keeps the invariant. */
  lemma VisitKeepsInv(lsa: LsaTable, self: RouterId, notVisited: set<RouterId>,
                      dist: map<RouterId, Cost>, prev: map<RouterId, RouterId>,
                      rank: map<RouterId, nat>, step: nat, u: RouterId)
    requires Inv(lsa, self, notVisited, dist, prev, rank, step)
    requires u in notVisited && u in dist
    requires forall v :: v in notVisited && v in dist ==> dist[u] <= dist[v]
    ensures var nv := notVisited - {u};
            var r := Relax(lsa[u], u, dist[u], nv, dist, prev);
            Inv(lsa, self, nv, r.0, r.1, rank[u := step], step + 1)
  {
    var nv := notVisited - {u};
    var r := Relax(lsa[u], u, dist[u], nv, dist, prev);
    VisitCounts(lsa, notVisited, rank, step, u);
    VisitTentative(lsa, self, notVisited, dist, prev, rank, step, u, r);
    VisitPrev(lsa, self, notVisited, dist, prev, rank, step, u, r);
    VisitSettled(lsa, self, notVisited, dist, prev, rank, step, u, r);
    VisitFrontier(lsa, notVisited, dist, prev, rank, step, u, r);
  }

  lemma VisitCounts(lsa: LsaTable, notVisited: set<RouterId>, rank: map<RouterId, nat>, step: nat, u: RouterId)
    requires Visits(lsa, notVisited, rank, step)
    requires u in notVisited
    ensures Visits(lsa, notVisited - {u}, rank[u := step], step + 1)
  {
  }

  lemma VisitTentative(lsa: LsaTable, self: RouterId, notVisited: set<RouterId>,
                       dist: map<RouterId, Cost>, prev: map<RouterId, RouterId>,
                       rank: map<RouterId, nat>, step: nat, u: RouterId,
                       r: (map<RouterId, Cost>, map<RouterId, RouterId>))
    requires Tentative(lsa, self, dist, prev, rank)
    requires notVisited <= lsa.Keys
    requires u in lsa && u in dist
    requires r == Relax(lsa[u], u, dist[u], notVisited - {u}, dist, prev)
    ensures Tentative(lsa, self, r.0, r.1, rank[u := step])
  {
    assert r.0[self] <= dist[self];
    forall v | v in r.1
      ensures v in r.0 && v != self
    {
      if !Changed(dist, r.0, v) {
        assert KeptAt(prev, r.1, v);
      }
    }
    forall v | v in r.0 && v != self
      ensures v in r.1
    {
      if !Changed(dist, r.0, v) {
        assert KeptAt(prev, r.1, v);
      }
    }
  }

  lemma VisitPrev(lsa: LsaTable, self: RouterId, notVisited: set<RouterId>,
                  dist: map<RouterId, Cost>, prev: map<RouterId, RouterId>,
                  rank: map<RouterId, nat>, step: nat, u: RouterId,
                  r: (map<RouterId, Cost>, map<RouterId, RouterId>))
    requires Visits(lsa, notVisited, rank, step)
    requires PrevSteps(lsa, dist, prev, rank)
    requires u in notVisited && u in dist
    requires r == Relax(lsa[u], u, dist[u], notVisited - {u}, dist, prev)
    ensures PrevSteps(lsa, r.0, r.1, rank[u := step])
  {
    var nv, dist', prev', rank' := notVisited - {u}, r.0, r.1, rank[u := step];
    forall v | v in prev'
      ensures PrevStep(lsa, dist', prev', rank', v)
    {
      if Changed(dist, dist', v) {
        assert prev'[v] == u;
        assert KeptAt(dist, dist', u);
        assert v in nv;
      } else {
        assert KeptAt(prev, prev', v);
        assert PrevStep(lsa, dist, prev, rank, v);
        assert prev[v] !in nv;
        assert KeptAt(dist, dist', prev[v]);
        assert KeptAt(dist, dist', v);
      }
    }
  }

  lemma VisitSettled(lsa: LsaTable, self: RouterId, notVisited: set<RouterId>,
                     dist: map<RouterId, Cost>, prev: map<RouterId, RouterId>,
                     rank: map<RouterId, nat>, step: nat, u: RouterId,
                     r: (map<RouterId, Cost>, map<RouterId, RouterId>))
    requires Inv(lsa, self, notVisited, dist, prev, rank, step)
    requires u in notVisited && u in dist
    requires forall v :: v in notVisited && v in dist ==> dist[u] <= dist[v]
    requires r == Relax(lsa[u], u, dist[u], notVisited - {u}, dist, prev)
    ensures Settled(lsa, self, r.0, rank[u := step])
  {
    MinIsFinal(lsa, self, notVisited, dist, prev, rank, step, u);
    forall x | x in rank[u := step]
      ensures x in r.0 && NoShorterPath(lsa, self, x, r.0[x])
    {
      assert KeptAt(dist, r.0, x);
    }
  }

  lemma VisitFrontier(lsa: LsaTable, notVisited: set<RouterId>,
                      dist: map<RouterId, Cost>, prev: map<RouterId, RouterId>,
                      rank: map<RouterId, nat>, step: nat, u: RouterId,
                      r: (map<RouterId, Cost>, map<RouterId, RouterId>))
    requires Visits(lsa, notVisited, rank, step)
    requires Frontier(lsa, notVisited, dist, rank)
    requires u in notVisited && u in dist
    requires r == Relax(lsa[u], u, dist[u], notVisited - {u}, dist, prev)
    ensures Frontier(lsa, notVisited - {u}, r.0, rank[u := step])
  {
    var nv := notVisited - {u};
    forall x, y | x in rank[u := step] && y in nv && Edge(lsa, x, y)
      ensures x in r.0 && y in r.0 && r.0[y] <= r.0[x] + lsa[x][y]
    {
      assert KeptAt(dist, r.0, x);
      if x != u {
        assert y in dist && dist[y] <= dist[x] + lsa[x][y];
      }
    }
  }

  /** What the invariant gives once no unvisited node is at a finite
      distance. */
  lemma FinalFacts(lsa: LsaTable, self: RouterId, notVisited: set<RouterId>,
                   dist: map<RouterId, Cost>, prev: map<RouterId, RouterId>,
                   rank: map<RouterId, nat>, step: nat)
    requires Inv(lsa, self, notVisited, dist, prev, rank, step)
    requires forall v :: v in notVisited ==> v !in dist
    ensures PrevConsistent(lsa, self, dist, prev)
    ensures PrevRanked(prev, self, rank)
    ensures forall v :: v in dist ==> IsShortestDistance(lsa, self, v, dist[v])
    ensures forall v :: v !in dist ==> !Reachable(lsa, self, v)
  {
    forall v | v in prev
      ensures v in rank && (prev[v] == self || (prev[v] in prev && prev[v] in rank && rank[prev[v]] < rank[v]))
    {
      assert PrevStep(lsa, dist, prev, rank, v);
    }
    forall v | v in dist
      ensures IsShortestDistance(lsa, self, v, dist[v])
    {
      PrevPathFacts(lsa, self, dist, prev, rank, v);
      if v == self {
        forall p | IsPathTo(lsa, self, v, p)
          ensures 0 <= PathCost(lsa, p)
        {
        }
      }
    }
    forall v | v !in dist
      ensures !Reachable(lsa, self, v)
    {
      if p :| IsPathTo(lsa, self, v, p) {
        assert |p| >= 2 && Edge(lsa, p[0], p[1]);
        assert self in rank.Keys;
        var j := Crossing(p, rank.Keys);
        assert false;
      }
    }
  }

  /** The path obtained by following the predecessors back from `v`. */
  ghost function PrevPath(prev: map<RouterId, RouterId>, self: RouterId, rank: map<RouterId, nat>, v: RouterId): seq<RouterId>
    requires PrevRanked(prev, self, rank)
    requires v == self || v in prev
    decreases if v == self then 0 else rank[v] + 1
  {
    if v == self then [self] else PrevPath(prev, self, rank, prev[v]) + [v]
  }

  /** The next hop towards `v` as the recursive `next_hop` walk computes it:
      the node on `v`'s predecessor chain whose predecessor is `self`. */
  ghost function FirstHop(prev: map<RouterId, RouterId>, self: RouterId, rank: map<RouterId, nat>, v: RouterId): RouterId
    requires PrevRanked(prev, self, rank)
    requires v in prev
    decreases rank[v]
  {
    if prev[v] == self then v else FirstHop(prev, self, rank, prev[v])
  }

  /** The predecessor chain of `v` is a path from `self` whose cost is `v`'s
      distance, and its second node is `v`'s first hop. */
  lemma {:induction false} PrevPathFacts(lsa: LsaTable, self: RouterId, dist: map<RouterId, Cost>,
                                         prev: map<RouterId, RouterId>, rank: map<RouterId, nat>, v: RouterId)
    requires PrevConsistent(lsa, self, dist, prev) && PrevRanked(prev, self, rank)
    requires v in dist
    ensures var p := PrevPath(prev, self, rank, v);
            && IsPathTo(lsa, self, v, p) && PathCost(lsa, p) == dist[v]
            && (v != self ==> |p| >= 2 && p[1] == FirstHop(prev, self, rank, v))
    decreases if v == self then 0 else rank[v] + 1
  {
    if v != self {
      var u := prev[v];
      PrevPathFacts(lsa, self, dist, prev, rank, u);
      var q := PrevPath(prev, self, rank, u);
      ExtendWalk(lsa, q, v);
      assert PrevPath(prev, self, rank, v) == q + [v];
    }
  }

  /** The iterative walk up the predecessor chain: returns the node on
      `dst`'s chain whose predecessor is `self`. */
  method NextHop(self: RouterId, prev: map<RouterId, RouterId>, dst: RouterId, ghost rank: map<RouterId, nat>)
    returns (hop: RouterId)
    requires PrevRanked(prev, self, rank)
    requires dst in prev
    requires dst != self
    ensures hop in prev && prev[hop] == self
    ensures hop == FirstHop(prev, self, rank, dst)
  {
    hop := dst;
    while prev[hop] != self
      invariant hop in prev
      invariant FirstHop(prev, self, rank, hop) == FirstHop(prev, self, rank, dst)
      decreases rank[hop]
    {
      hop := prev[hop];
    }
  }

  /** Fills the forwarding table: every originator other than `self` that has
      a predecessor gets its next hop; the other entries are kept. */
  method ForwardingEntries(lsa: LsaTable, self: RouterId, prev: map<RouterId, RouterId>,
                           ghost rank: map<RouterId, nat>, fwd0: map<RouterId, RouterId>)
    returns (fwd: map<RouterId, RouterId>)
    requires PrevRanked(prev, self, rank)
    ensures forall d :: d in fwd <==> d in fwd0 || (d in lsa && d != self && d in prev)
    ensures forall d :: d in lsa && d != self && d in prev ==> fwd[d] == FirstHop(prev, self, rank, d)
    ensures forall d :: d in fwd0 && !(d in lsa && d != self && d in prev) ==> fwd[d] == fwd0[d]
  {
    fwd := fwd0;
    var todo := lsa.Keys;
    while todo != {}
      invariant todo <= lsa.Keys
      invariant forall d :: d in fwd <==> d in fwd0 || (d in lsa && d !in todo && d != self && d in prev)
      invariant forall d :: d in lsa && d !in todo && d != self && d in prev ==>
                  fwd[d] == FirstHop(prev, self, rank, d)
      invariant forall d :: d in fwd0 && !(d in lsa && d !in todo && d != self && d in prev) ==>
                  fwd[d] == fwd0[d]
      decreases todo
    {
      // a set being nonempty does not by itself tell the verifier that an
      // element exists; naming one first lets the choice below go through
      ghost var w := Pick(todo);
      var dst :| dst in todo;
      todo := todo - {dst};
      if dst != self && dst in prev {
        var hop := NextHop(self, prev, dst, rank);
        fwd := fwd[dst := hop];
      }
    }
  }

  /** The forwarding table a link-state router should end with: it gains an
      entry for exactly the originators other than `self` reachable from
      `self`, each naming the second node of a cheapest path to it; every
      other entry is left as it was. */
  ghost predicate ShortestNextHops(lsa: LsaTable, self: RouterId, fwd0: map<RouterId, RouterId>, fwd: map<RouterId, RouterId>)
  {
    && (forall d :: d in fwd <==> d in fwd0 || (d in lsa && d != self && Reachable(lsa, self, d)))
    && (forall d :: d in lsa && d != self && Reachable(lsa, self, d) ==>
          exists p :: IsShortestPath(lsa, self, d, p) && |p| >= 2 && p[1] == fwd[d])
    && (forall d :: d in fwd0 && !(d in lsa && d != self && Reachable(lsa, self, d)) ==> fwd[d] == fwd0[d])
  }

  /** The whole route computation: Dijkstra, then the forwarding entries. */
  method ComputeRoutes(lsa: LsaTable, self: RouterId, fwd0: map<RouterId, RouterId>)
    returns (fwd: map<RouterId, RouterId>)
    ensures ShortestNextHops(lsa, self, fwd0, fwd)
  {
    var dist, prev, rank, iterations := Dijkstra(lsa, self);
    fwd := ForwardingEntries(lsa, self, prev, rank, fwd0);
    forall d | d in lsa && d != self && Reachable(lsa, self, d)
      ensures exists p :: IsShortestPath(lsa, self, d, p) && |p| >= 2 && p[1] == fwd[d]
    {
      PrevPathFacts(lsa, self, dist, prev, rank, d);
      var p := PrevPath(prev, self, rank, d);
      assert IsShortestPath(lsa, self, d, p);
    }
  }
}
