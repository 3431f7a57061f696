/**
 * The distance-vector engine of one router: a Bellman-Ford style relaxation
 * of the local vector against each neighbour's advertised vector, and a tick
 * that re-advertises the whole vector only when the last advertisement
 * processed changed it.
 */
module DistanceVector {
  import opened Common

  /** One router: the base fields (id, links, forwarding table) and the
      engine's own state (the vector and its change flag). A destination
      missing from `dv` is at distance infinity. */
  datatype DvRouter = DvRouter(
    id: RouterId,
    links: Links,
    fwdTable: map<RouterId, RouterId>,
    dv: map<RouterId, Cost>,
    dvChange: bool)

  /** The full vector `vector` of router `sender`, addressed to router `to`. */
  datatype DvAdvert = DvAdvert(to: RouterId, vector: map<RouterId, Cost>, sender: RouterId)

  /** The state invariant the engine keeps once initialised: the router is at
      distance 0 from itself and forwards to itself, and every other known
      destination is forwarded to a direct neighbour whose link cost does not
      exceed the recorded distance. */
  ghost predicate Wf(s: DvRouter)
  {
    && s.id in s.dv && s.dv[s.id] == 0
    && s.id in s.fwdTable && s.fwdTable[s.id] == s.id
    && forall d :: d in s.dv && d != s.id ==>
         d in s.fwdTable && s.fwdTable[d] in s.links && s.links[s.fwdTable[d]] <= s.dv[d]
  }

  /** The state the constructor leaves: no vector yet and the change flag set,
      so that the first tick advertises. */
  function Boot(id: RouterId, links: Links): (r: DvRouter)
    ensures r.id == id && r.links == links && r.dv == map[]
    ensures var i := Initialize(r);
            && Wf(i)
            && forall n :: n in links ==> DvAdvert(n, i.dv, id) in RunOneTick(i).1
  {
    DvRouter(id, links, map[], map[], true)
  }

  /** Seeds the vector from the direct links and the router itself. */
  function Initialize(s: DvRouter): (r: DvRouter)
    ensures r.id == s.id && r.links == s.links && r.dvChange == s.dvChange
    ensures r.dv.Keys == s.dv.Keys + s.links.Keys + {s.id}
    ensures r.fwdTable.Keys == s.fwdTable.Keys + s.links.Keys + {s.id}
    ensures r.dv[s.id] == 0 && r.fwdTable[s.id] == s.id
    ensures forall n :: n in s.links && n != s.id ==> r.dv[n] == s.links[n] && r.fwdTable[n] == n
    ensures forall d :: d !in s.links && d != s.id ==>
              KeptAt(s.dv, r.dv, d) && KeptAt(s.fwdTable, r.fwdTable, d)
    ensures s.dv == map[] ==> Wf(r)
  {
    var direct := map n | n in s.links :: n;
    s.(dv := (s.dv + s.links)[s.id := 0], fwdTable := (s.fwdTable + direct)[s.id := s.id])
  }

  /** The destinations for which going through `sender` beats the current
      distance (including destinations currently at infinity). */
  function Better(s: DvRouter, adv: map<RouterId, Cost>, sender: RouterId): set<RouterId>
    requires sender in s.links
  {
    set d | d in adv && (d !in s.dv || s.links[sender] + adv[d] < s.dv[d])
  }

  /** Relaxes the local vector against the vector `adv` advertised by the
      neighbour `sender`. The change flag is recomputed for this call alone. */
  function ProcessAdvertisement(s: DvRouter, adv: map<RouterId, Cost>, sender: RouterId): (r: DvRouter)
    requires sender in s.links
    ensures r.id == s.id && r.links == s.links
    // no destination is forgotten; the advertised ones become known
    ensures r.dv.Keys == s.dv.Keys + adv.Keys
    // distances never increase
    ensures forall d :: d in s.dv ==> r.dv[d] <= s.dv[d]
    // every advertised destination is at most as far as the route through sender
    ensures forall d :: d in adv ==> r.dv[d] <= s.links[sender] + adv[d]
    // an entry that changes becomes exactly the route through sender
    ensures forall d :: Changed(s.dv, r.dv, d) ==>
              d in adv && r.dv[d] == s.links[sender] + adv[d] &&
              d in r.fwdTable && r.fwdTable[d] == sender
    // destinations the neighbour is silent about are untouched
    ensures forall d :: d !in adv ==> KeptAt(s.dv, r.dv, d)
    ensures forall d :: !Changed(s.dv, r.dv, d) ==> KeptAt(s.fwdTable, r.fwdTable, d)
    // the flag says whether this very call changed the vector
    ensures r.dvChange <==> exists d :: Changed(s.dv, r.dv, d)
    // the router's own entry, once at 0, stays at 0 with its forwarding entry
    ensures s.id in s.dv && s.dv[s.id] == 0 ==>
              r.dv[s.id] == 0 && KeptAt(s.fwdTable, r.fwdTable, s.id)
    ensures Wf(s) ==> Wf(r)
  {
    var better := Better(s, adv, sender);
    var dv' := s.dv + map d | d in better :: s.links[sender] + adv[d];
    var fwd' := s.fwdTable + map d | d in better :: sender;
    var r := s.(dv := dv', fwdTable := fwd', dvChange := better != {});
    RelaxationFacts(s, adv, sender, r);
    r
  }

  /** What the relaxation of `ProcessAdvertisement` does, entry by entry. */
  lemma RelaxationFacts(s: DvRouter, adv: map<RouterId, Cost>, sender: RouterId, r: DvRouter)
    requires sender in s.links
    requires var better := Better(s, adv, sender);
             r == s.(dv := s.dv + map d | d in better :: s.links[sender] + adv[d],
                     fwdTable := s.fwdTable + map d | d in better :: sender,
                     dvChange := better != {})
    ensures r.dv.Keys == s.dv.Keys + adv.Keys
    ensures forall d :: d in s.dv ==> r.dv[d] <= s.dv[d]
    ensures forall d :: d in adv ==> r.dv[d] <= s.links[sender] + adv[d]
    ensures forall d :: Changed(s.dv, r.dv, d) ==>
              d in adv && r.dv[d] == s.links[sender] + adv[d] &&
              d in r.fwdTable && r.fwdTable[d] == sender
    ensures forall d :: d !in adv ==> KeptAt(s.dv, r.dv, d)
    ensures forall d :: !Changed(s.dv, r.dv, d) ==> KeptAt(s.fwdTable, r.fwdTable, d)
    ensures r.dvChange <==> exists d :: Changed(s.dv, r.dv, d)
    // the router's own entry, once at 0, stays at 0 with its forwarding entry
    ensures s.id in s.dv && s.dv[s.id] == 0 ==>
              r.dv[s.id] == 0 && KeptAt(s.fwdTable, r.fwdTable, s.id)
    ensures Wf(s) ==> Wf(r)
  {
    var better := Better(s, adv, sender);
    assert forall d :: Changed(s.dv, r.dv, d) <==> d in better;
    BetterIsChange(s.dv, r.dv, better);
  }

  /** The relaxed entries are exactly the changed ones, so the flag computed
      from them says whether anything changed. */
  lemma BetterIsChange(dv: map<RouterId, Cost>, dv': map<RouterId, Cost>, better: set<RouterId>)
    requires forall d :: Changed(dv, dv', d) <==> d in better
    ensures better != {} <==> exists d :: Changed(dv, dv', d)
  {
    if better != {} {
      var d := Pick(better);
      assert Changed(dv, dv', d);
    }
  }

  /** Delivering an advertisement is the receiver processing it. */
  function Send(receiver: DvRouter, m: DvAdvert): (r: DvRouter)
    requires m.sender in receiver.links
    ensures r.id == receiver.id && r.links == receiver.links
    ensures r == ProcessAdvertisement(receiver, m.vector, m.sender)
  {
    ProcessAdvertisement(receiver, m.vector, m.sender)
  }

  /** One tick: when the flag is set, the whole vector goes to every neighbour;
      the flag is cleared either way. */
  function RunOneTick(s: DvRouter): (r: (DvRouter, set<DvAdvert>))
    ensures r.0 == s.(dvChange := false)
    ensures s.dvChange ==> forall n :: n in s.links ==> DvAdvert(n, s.dv, s.id) in r.1
    ensures forall m :: m in r.1 ==> s.dvChange && m.to in s.links && m.vector == s.dv && m.sender == s.id
  {
    var out := if s.dvChange then set n | n in s.links :: DvAdvert(n, s.dv, s.id) else {};
    (s.(dvChange := false), out)
  }

  /** Processing the same advertisement twice in a row: the second call
      changes nothing and leaves the flag clear. */
  lemma ProcessAdvertisementIdempotent(s: DvRouter, adv: map<RouterId, Cost>, sender: RouterId)
    requires sender in s.links
    ensures var r1 := ProcessAdvertisement(s, adv, sender);
            var r2 := ProcessAdvertisement(r1, adv, sender);
            r2.dv == r1.dv && r2.fwdTable == r1.fwdTable && !r2.dvChange
  {
    var r1 := ProcessAdvertisement(s, adv, sender);
    assert forall d :: d in adv ==> d in r1.dv && r1.dv[d] <= r1.links[sender] + adv[d];
    NothingBetterIsNoOp(r1, adv, sender);
  }

  /** An advertisement that offers no better route leaves the vector and the
      forwarding table as they are and clears the flag. */
  lemma NothingBetterIsNoOp(s: DvRouter, adv: map<RouterId, Cost>, sender: RouterId)
    requires sender in s.links
    requires forall d :: d in adv ==> d in s.dv && s.dv[d] <= s.links[sender] + adv[d]
    ensures var r := ProcessAdvertisement(s, adv, sender);
            r.dv == s.dv && r.fwdTable == s.fwdTable && !r.dvChange
  {
    assert forall d :: d !in Better(s, adv, sender);
    assert Better(s, adv, sender) == {};
  }

  /** The flag is not accumulated: an advertisement that improves nothing
      clears a change made by an earlier advertisement in the same tick, so
      the next tick sends nothing although the vector differs from the one
      last advertised. */
  lemma LaterNoOpAdvertisementMasksChange(s: DvRouter, adv1: map<RouterId, Cost>, sender1: RouterId,
                                           adv2: map<RouterId, Cost>, sender2: RouterId)
    requires sender1 in s.links && sender2 in s.links
    requires Better(s, adv1, sender1) != {}
    requires var r1 := ProcessAdvertisement(s, adv1, sender1);
             forall d :: d in adv2 ==> d in r1.dv && r1.dv[d] <= s.links[sender2] + adv2[d]
    ensures var r := ProcessAdvertisement(ProcessAdvertisement(s, adv1, sender1), adv2, sender2);
            r.dv != s.dv && !r.dvChange && RunOneTick(r).1 == {}
  {
    var r1 := ProcessAdvertisement(s, adv1, sender1);
    var d := Pick(Better(s, adv1, sender1));
    assert Changed(s.dv, r1.dv, d);
    NothingBetterIsNoOp(r1, adv2, sender2);
  }

  /** The vector does not depend on the order in which two advertisements
      arrive: each entry ends at the least of its old value and the two
      routes offered. The forwarding table and the flag may differ, since a
      tie keeps the first sender and the flag reflects the later call. */
  lemma Confluent(s: DvRouter, adv1: map<RouterId, Cost>, sender1: RouterId,
                  adv2: map<RouterId, Cost>, sender2: RouterId)
    requires sender1 in s.links && sender2 in s.links
    ensures ProcessAdvertisement(ProcessAdvertisement(s, adv1, sender1), adv2, sender2).dv
         == ProcessAdvertisement(ProcessAdvertisement(s, adv2, sender2), adv1, sender1).dv
  {
    var a := ProcessAdvertisement(ProcessAdvertisement(s, adv1, sender1), adv2, sender2).dv;
    var b := ProcessAdvertisement(ProcessAdvertisement(s, adv2, sender2), adv1, sender1).dv;
    forall d
      ensures KeptAt(a, b, d)
    {
      ConfluentAt(s, adv1, sender1, adv2, sender2, d);
    }
    KeptEverywhere(a, b);
  }

  /** `Confluent` for the single entry `d`. */
  lemma ConfluentAt(s: DvRouter, adv1: map<RouterId, Cost>, sender1: RouterId,
                    adv2: map<RouterId, Cost>, sender2: RouterId, d: RouterId)
    requires sender1 in s.links && sender2 in s.links
    ensures KeptAt(ProcessAdvertisement(ProcessAdvertisement(s, adv1, sender1), adv2, sender2).dv,
                   ProcessAdvertisement(ProcessAdvertisement(s, adv2, sender2), adv1, sender1).dv, d)
  {
    var x := ProcessAdvertisement(s, adv1, sender1);
    var y := ProcessAdvertisement(s, adv2, sender2);
    EntryAfter(s, adv1, sender1, d);
    EntryAfter(s, adv2, sender2, d);
    EntryAfter(x, adv2, sender2, d);
    EntryAfter(y, adv1, sender1, d);
  }

  /** Two maps that keep every entry of each other are equal. */
  lemma KeptEverywhere(a: map<RouterId, Cost>, b: map<RouterId, Cost>)
    requires forall d :: KeptAt(a, b, d)
    ensures a == b
  {
    forall d | d in a || d in b
      ensures d in a && d in b && a[d] == b[d]
    {
      assert KeptAt(a, b, d);
    }
  }

  /** One entry after an advertisement: the lesser of the old distance and
      the route through the sender, when either exists. */
  lemma EntryAfter(s: DvRouter, adv: map<RouterId, Cost>, sender: RouterId, d: RouterId)
    requires sender in s.links
    ensures var r := ProcessAdvertisement(s, adv, sender);
            && r.links == s.links
            && (d in r.dv <==> d in s.dv || d in adv)
            && (d !in adv ==> KeptAt(s.dv, r.dv, d))
            && (d in adv && d !in s.dv ==> r.dv[d] == s.links[sender] + adv[d])
            && (d in adv && d in s.dv ==> r.dv[d] == Min(s.dv[d], s.links[sender] + adv[d]))
  {
  }

  function Min(a: nat, b: nat): nat
  {
    if a <= b then a else b
  }

  /** A tick clears the flag, so a second tick with no advertisement in
      between sends nothing. */
  lemma TickQuiesces(s: DvRouter)
    ensures RunOneTick(RunOneTick(s).0).1 == {}
  {
  }

  /** Some entry was added or rewritten between `dv` and `dv'`. */
  ghost predicate AnyChanged(dv: map<RouterId, Cost>, dv': map<RouterId, Cost>)
  {
    exists d :: Changed(dv, dv', d)
  }

  /** Processes a sequence of advertisements in delivery order. */
  function ProcessAll(s: DvRouter, advs: seq<DvAdvert>): DvRouter
    requires forall i :: 0 <= i < |advs| ==> advs[i].sender in s.links
    decreases |advs|
  {
    if advs == [] then s
    else ProcessAll(Send(s, advs[0]), advs[1..])
  }

  /** Over any run of advertisements, no destination is forgotten, no
      distance increases, the invariant is kept, and the flag reflects
      only the last advertisement. */
  lemma {:induction false} ProcessAllMonotone(s: DvRouter, advs: seq<DvAdvert>)
    requires forall i :: 0 <= i < |advs| ==> advs[i].sender in s.links
    ensures var r := ProcessAll(s, advs);
            && r.id == s.id && r.links == s.links
            && (forall d :: d in s.dv ==> d in r.dv && r.dv[d] <= s.dv[d])
            && (Wf(s) ==> Wf(r))
            && (advs != [] ==> (r.dvChange <==> AnyChanged(ProcessAll(s, advs[..|advs| - 1]).dv, r.dv)))
    decreases |advs|
  {
    if advs != [] {
      var s1 := Send(s, advs[0]);
      ProcessAllMonotone(s1, advs[1..]);
      var init := advs[..|advs| - 1];
      if |advs| == 1 {
        assert init == [] && advs[1..] == [];
      } else {
        assert init[0] == advs[0] && init[1..] == advs[1..][..|advs[1..]| - 1];
        assert ProcessAll(s, init) == ProcessAll(s1, advs[1..][..|advs[1..]| - 1]);
      }
    }
  }
}
