/**
 * The link-state engine of one router: it floods every advertisement it
 * learns to its neighbours once while the clock is below the broadcast
 * interval, then computes its routes exactly once, then stays idle.
 */
module LinkState {
  import opened Common
  import opened LsGraph
  import opened ShortestPaths

  /** Ticks after which the flood is taken to be complete. */
  const BroadcastInterval: nat := 1000

  /** One router: the base fields (id, links, forwarding table) and the
      engine's own state. */
  datatype LsRouter = LsRouter(
    id: RouterId,
    links: Links,
    fwdTable: map<RouterId, RouterId>,
    lsaDict: LsaTable,
    broadcasted: map<RouterId, bool>,
    broadcastComplete: bool,
    routesComputed: bool)

  /** The advertisement `lsa` of router `originator`, addressed to router `to`. */
  datatype LsaMsg = LsaMsg(to: RouterId, lsa: Links, originator: RouterId)

  /** This router has already flooded the advertisement of `o`. */
  predicate Marked(s: LsRouter, o: RouterId)
  {
    o in s.broadcasted && s.broadcasted[o]
  }

  /** The state the constructor leaves: nothing held, the router's own
      advertisement recorded as not yet flooded. */
  function Boot(id: RouterId, links: Links): (r: LsRouter)
    ensures r.id == id && r.links == links && !r.broadcastComplete && !r.routesComputed
    ensures var i := Initialize(r);
            forall n :: n in links ==> LsaMsg(n, links, id) in Flood(i).1
  {
    LsRouter(id, links, map[], map[], map[id := false], false, false)
  }

  /** The router's own links are its first advertisement. */
  function Initialize(s: LsRouter): (r: LsRouter)
    ensures r.lsaDict.Keys == {s.id} && r.lsaDict[s.id] == s.links
    ensures r == s.(lsaDict := r.lsaDict)
  {
    s.(lsaDict := map[s.id := s.links])
  }

  /** Delivery of an advertisement: the receiver's entry for `originator` is
      overwritten and nothing else changes. */
  function Send(receiver: LsRouter, lsa: Links, originator: RouterId): (r: LsRouter)
    ensures r.lsaDict.Keys == receiver.lsaDict.Keys + {originator}
    ensures r.lsaDict[originator] == lsa
    ensures forall o :: o != originator ==> KeptAt(receiver.lsaDict, r.lsaDict, o)
    ensures r == receiver.(lsaDict := r.lsaDict)
  {
    receiver.(lsaDict := receiver.lsaDict[originator := lsa])
  }

  /** The flooding branch of a tick: every held advertisement not yet flooded
      goes to every neighbour, and every held originator ends up marked. */
  function Flood(s: LsRouter): (r: (LsRouter, set<LsaMsg>))
    ensures r.0 == s.(broadcasted := r.0.broadcasted)
    ensures forall o :: o in s.lsaDict ==> Marked(r.0, o)
    ensures forall o :: o !in s.lsaDict ==> KeptAt(s.broadcasted, r.0.broadcasted, o)
    ensures forall m :: m in r.1 ==>
              m.to in s.links && m.originator in s.lsaDict && !Marked(s, m.originator) &&
              m.lsa == s.lsaDict[m.originator]
    ensures forall n, o :: n in s.links && o in s.lsaDict && !Marked(s, o) ==>
              LsaMsg(n, s.lsaDict[o], o) in r.1
  {
    var pending := set o | o in s.lsaDict && !Marked(s, o);
    var out := set n, o | n in s.links && o in pending :: LsaMsg(n, s.lsaDict[o], o);
    (s.(broadcasted := s.broadcasted + map o | o in pending :: true), out)
  }

  /** The route computation: Dijkstra over the held advertisements, then the
      forwarding entries, then the computed mark. */
  method DijkstrasAlgorithm(s: LsRouter) returns (r: LsRouter)
    ensures r == s.(fwdTable := r.fwdTable, routesComputed := true)
    ensures ShortestNextHops(s.lsaDict, s.id, s.fwdTable, r.fwdTable)
  {
    var fwd := ComputeRoutes(s.lsaDict, s.id, s.fwdTable);
    r := s.(fwdTable := fwd, routesComputed := true);
  }

  /** One tick at time `clock`: flood while the clock is below the interval,
      compute the routes on the first tick at or past it, and do nothing
      afterwards. */
  method RunOneTick(s: LsRouter, clock: nat) returns (r: LsRouter, out: set<LsaMsg>)
    ensures clock < BroadcastInterval ==> (r, out) == Flood(s)
    ensures clock >= BroadcastInterval && !s.routesComputed ==>
              && out == {}
              && r == s.(fwdTable := r.fwdTable, broadcastComplete := true, routesComputed := true)
              && ShortestNextHops(s.lsaDict, s.id, s.fwdTable, r.fwdTable)
    ensures clock >= BroadcastInterval && s.routesComputed ==> r == s && out == {}
    ensures r.lsaDict == s.lsaDict
    ensures forall o :: Marked(s, o) ==> Marked(r, o)
  {
    if clock >= BroadcastInterval && !s.routesComputed {
      var s1 := s.(broadcastComplete := true);
      r := DijkstrasAlgorithm(s1);
      r := r.(routesComputed := true);
      out := {};
    } else if clock < BroadcastInterval {
      var flooded := Flood(s);
      r, out := flooded.0, flooded.1;
    } else {
      r, out := s, {};
    }
  }

  /** Receiving the same advertisement twice is the same as receiving it
      once. */
  lemma SendIdempotent(s: LsRouter, lsa: Links, originator: RouterId)
    ensures Send(Send(s, lsa, originator), lsa, originator) == Send(s, lsa, originator)
  {
  }

  /** Re-delivering the advertisement already held changes nothing. */
  lemma RedeliveryIsNoOp(s: LsRouter, lsa: Links, originator: RouterId)
    requires originator in s.lsaDict && s.lsaDict[originator] == lsa
    ensures Send(s, lsa, originator) == s
  {
    assert s.lsaDict[originator := lsa] == s.lsaDict;
  }

  /** A second flood with nothing learned in between sends nothing. */
  lemma FloodTwiceSendsNothing(s: LsRouter)
    ensures Flood(Flood(s).0).1 == {}
    ensures Flood(Flood(s).0).0 == Flood(s).0
  {
    var s1 := Flood(s).0;
    assert forall o :: o in s1.lsaDict ==> Marked(s1, o);
    assert (set o | o in s1.lsaDict && !Marked(s1, o)) == {};
  }

  /** What can happen to a router during its flooding phase. */
  datatype LsEvent = Receive(lsa: Links, originator: RouterId) | FloodTick

  function Step(s: LsRouter, e: LsEvent): LsRouter
  {
    match e
    case Receive(lsa, o) => Send(s, lsa, o)
    case FloodTick => Flood(s).0
  }

  /** The number of flood ticks in `evs` that send the advertisement of `o`. */
  function TimesFlooded(s: LsRouter, evs: seq<LsEvent>, o: RouterId): nat
    decreases |evs|
  {
    if evs == [] then 0
    else
      var here := if evs[0].FloodTick? && exists m | m in Flood(s).1 :: m.originator == o then 1 else 0;
      here + TimesFlooded(Step(s, evs[0]), evs[1..], o)
  }

  /** Once marked, always marked, and a marked advertisement is never sent
      again. */
  lemma {:induction false} MarkedNeverFloodedAgain(s: LsRouter, evs: seq<LsEvent>, o: RouterId)
    requires Marked(s, o)
    ensures TimesFlooded(s, evs, o) == 0
    decreases |evs|
  {
    if evs != [] {
      var s1 := Step(s, evs[0]);
      assert Marked(s1, o);
      MarkedNeverFloodedAgain(s1, evs[1..], o);
    }
  }

  /** Over any sequence of receipts and flood ticks, each originator's
      advertisement is flooded at most once, and not at all if it was
      already marked at the start. */
  lemma {:induction false} FloodedAtMostOnce(s: LsRouter, evs: seq<LsEvent>, o: RouterId)
    ensures TimesFlooded(s, evs, o) <= if Marked(s, o) then 0 else 1
    decreases |evs|
  {
    if evs == [] {
    } else {
      var s1 := Step(s, evs[0]);
      if evs[0].FloodTick? && exists m | m in Flood(s).1 :: m.originator == o {
        assert o in s.lsaDict && !Marked(s, o);
        assert Marked(s1, o);
        MarkedNeverFloodedAgain(s1, evs[1..], o);
      } else {
        FloodedAtMostOnce(s1, evs[1..], o);
        assert Marked(s, o) ==> Marked(s1, o);
      }
    }
  }
}
