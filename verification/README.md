# Distance-vector and link-state routing engines

This project models the two routing engines of a network-routing simulator.
Each router runs one engine.

- **Distance vector** (`src/dv_router.py`). Each router keeps a distance
  vector: its best known cost to every destination, where a missing entry
  means infinity. It also keeps a forwarding table that names the next hop
  for each destination.
  - At boot it knows its direct links and itself.
  - Whenever its vector changed, a tick sends the whole vector to every
    neighbour.
  - On receiving a neighbour's vector, it relaxes each destination
    Bellman-Ford style, through that neighbour.
- **Link state** (`src/ls_router.py`). Each router collects the link-state
  advertisements (LSAs) of every router, keyed by originator.
  - While the clock is below `BROADCAST_INTERVAL` (1000 ticks), each tick
    floods every LSA it has not flooded yet to all neighbours.
  - A flag per originator makes sure each LSA is flooded only once.
  - On the first tick at or past the interval, it runs Dijkstra's algorithm
    once over the graph the LSAs describe.
  - It then fills the forwarding table by walking the predecessor chain back
    to itself.

How the model is built:

- Routers are immutable datatypes (`DistanceVector.DvRouter`,
  `LinkState.LsRouter`).
- Each operation is a pure function or method from the old state to the new
  one.
- Anything a router sends is returned as a set of messages (an outbox).
  Delivering a message is a separate function applied to the receiver.
- Costs are natural numbers. A missing key stands for infinity.
- The `-1` "no predecessor" marker of the shortest-path computation is a
  missing key of the `prev` map. This matches the Python code only when no
  router has id `-1` (see "Left out").
- The clock is a parameter of the link-state tick.

The shortest-path computation is proved against a reference graph model
(`LsGraph`) with three parts:

- The nodes are the originators of the held LSAs.
- There is an edge u → v when v appears in u's links and v is itself an
  originator. That is exactly the set of edges the relaxation loop can use.
- A path's cost is the sum of its link costs.

The following are proved:

- Dijkstra returns the cheapest-path cost for every destination it reaches.
- It reaches exactly the reachable destinations.
- Its predecessor chains terminate.
- The iterative walk up the chain computes the same hop as the recursive
  `next_hop` in `src/ls_router.py`.
- Each forwarding entry is the second node of a cheapest path.

The distance-vector change flag is reset at the start of every
`process_advertisement` call, not accumulated per tick. The model keeps that
behaviour as written. The lemma `DistanceVector.LaterNoOpAdvertisementMasksChange`
shows what follows from it: a vector that changed can go unadvertised when
another advertisement that improves nothing arrives later in the same tick.

## Model

| member | source | states |
|---|---|---|
| DistanceVector.Boot | src/dv_router.py:6-28 | a freshly booted router, once initialised, satisfies the routing invariant and its first tick advertises its vector to every neighbour |
| DistanceVector.Initialize | src/dv_router.py:20-28 | the vector and the forwarding table gain exactly the neighbours and the router itself. Each neighbour is at its link cost via itself, the router is at 0 via itself, and other entries are untouched. From an empty vector the routing invariant holds |
| DistanceVector.ProcessAdvertisement | src/dv_router.py:45-71 | no destination is forgotten and the advertised ones become known. No distance increases. Every advertised destination ends at most the link cost plus the advertised cost. A changed entry equals exactly that route and forwards to the sender. Unadvertised destinations and unchanged entries keep their forwarding hop. The flag is set iff this call changed some entry. The router's own entry, once at 0, stays at 0 with the same forwarding entry. The routing invariant is preserved |
| DistanceVector.Send | src/dv_router.py:38-39 | delivering an advertisement is the receiver processing it; the receiver's identity and links are kept |
| DistanceVector.RunOneTick | src/dv_router.py:30-36 | the flag is cleared and nothing else changes. With the flag set, exactly the full vector goes to every neighbour. With it clear, nothing is sent |
| DistanceVector.ProcessAdvertisementIdempotent | src/dv_router.py:45-71 | processing the same advertisement again changes neither the vector nor the forwarding table and leaves the flag clear |
| DistanceVector.NothingBetterIsNoOp | src/dv_router.py:53-71 | an advertisement whose every destination is already known at no more than the route through the sender changes nothing and clears the flag |
| DistanceVector.LaterNoOpAdvertisementMasksChange | src/dv_router.py:48-71 | a change made by one advertisement is hidden from the next tick when a later advertisement in the same tick improves nothing. The vector differs from before, yet nothing is sent |
| DistanceVector.ProcessAllMonotone | src/dv_router.py:45-71 | over any sequence of advertisements from neighbours, the identity and links are kept, no known destination is forgotten or gets farther, and the routing invariant is preserved. The final flag says only whether the last advertisement changed the vector |
| DistanceVector.Confluent | src/dv_router.py:50-71 | two advertisements processed in either order leave the same vector |
| DistanceVector.EntryAfter | src/dv_router.py:50-71 | after an advertisement, each advertised entry is the lesser of its old distance and the route through the sender, or that route if it was unknown. Unadvertised entries are untouched |
| LinkState.Boot | src/ls_router.py:10-36 | a freshly booted router has computed nothing, and its first flood after initialisation sends its own links to every neighbour |
| LinkState.Initialize | src/ls_router.py:35-36 | the held LSAs become exactly the router's own links and nothing else changes |
| LinkState.Send | src/ls_router.py:62-64 | delivery overwrites the receiver's entry for the originator, adds it if new, and changes nothing else |
| LinkState.Flood | src/ls_router.py:45-55 | only the flooded marks change, and every held originator ends up marked. Messages go to exactly every neighbour, one for each held LSA that was not yet marked, each carrying that LSA |
| LinkState.DijkstrasAlgorithm | src/ls_router.py:66-111 | only the forwarding table changes and the routes are marked computed. The table gains an entry for exactly the reachable originators other than the router itself, each the second node of a cheapest path, and keeps all other entries |
| LinkState.RunOneTick | src/ls_router.py:38-57 | below the interval a tick is a flood. On the first tick at or past it, nothing is sent, the routes are computed as above and both phase flags become true. Afterwards a tick does nothing. The held LSAs never change in a tick and marks are never lost |
| LinkState.RedeliveryIsNoOp | src/ls_router.py:62-64 | re-delivering the LSA already held for an originator leaves the router unchanged |
| LinkState.FloodTwiceSendsNothing | src/ls_router.py:49-53 | a second flood with nothing received in between sends nothing and changes nothing |
| LinkState.MarkedNeverFloodedAgain | src/ls_router.py:49-53 | once an originator is marked, no later flood, whatever is received meanwhile, sends its LSA |
| LinkState.FloodedAtMostOnce | src/ls_router.py:27-53 | over any sequence of receipts and flood ticks, each originator's LSA is flooded at most once, and never if it was already marked |
| ShortestPaths.SelectMin | src/ls_router.py:84-92 | the scan finds nothing iff no unvisited node has a finite distance. Otherwise it finds an unvisited node of minimum finite distance |
| ShortestPaths.Relax | src/ls_router.py:97-103 | relaxation only lowers distances, touches only unvisited neighbours of the visited node, and bounds each by the route through that node. A changed entry equals that route and records the node as predecessor |
| ShortestPaths.Dijkstra | src/ls_router.py:76-103 | every node given a distance is at its cheapest-path cost from the router, and every node left without one is unreachable. Predecessors are consistent with the distances and their chains terminate at the router. The loop runs at most once per originator |
| ShortestPaths.MinIsFinal | src/ls_router.py:84-95 | the unvisited node of minimum distance that is about to be visited has no cheaper path |
| ShortestPaths.VisitKeepsInv | src/ls_router.py:82-103 | one iteration of the main loop, visiting a minimum node and relaxing its edges, preserves the loop invariant |
| ShortestPaths.FinalFacts | src/ls_router.py:82-92 | when the loop stops, every distance is a cheapest-path cost and every missing node is unreachable |
| ShortestPaths.PrevPathFacts | src/ls_router.py:95-125 | following the predecessors back from a node gives a path from the router whose cost is the node's distance, and whose second node is the node's next hop |
| ShortestPaths.NextHop | src/ls_router.py:116-125 | the walk returns the node on the destination's predecessor chain whose predecessor is the router. This is the same node the recursive definition gives |
| ShortestPaths.ForwardingEntries | src/ls_router.py:105-109 | exactly the originators other than the router that have a predecessor get an entry, namely their next hop. All other entries are kept |
| ShortestPaths.ComputeRoutes | src/ls_router.py:66-111 | the final table routes every reachable originator through the second node of a cheapest path and adds no other entry |

## Left out

- The `Router` base class is not part of this model.
  - Its fields `router_id`, `links` and `fwd_table` are datatype fields.
  - Its `neighbors` list is taken to be the key set of `links`.
  - A booted router's forwarding table is taken to be empty.
- The simulator, the tick ordering across routers and the shared clock are
  left out. The link-state tick takes the clock reading as a parameter.
- Immediate delivery inside the sender's loop is not modelled. Sends are
  returned as an outbox and delivered by a separate function, so effects
  through shared objects are not modelled. Those effects are a neighbour
  whose processing reads the sender's own dictionary, and a router listed
  among its own neighbours.
- Costs are natural numbers, not floats. Infinity is a missing key.
- When several unvisited nodes tie at the minimum distance, which one the scan
  keeps depends on set iteration order. The model leaves the choice open.
- Network-wide properties are not proved. These are convergence of the
  distance vectors to shortest distances, and agreement of the
  distance-vector and link-state tables.
- DistanceVector.ProcessAdvertisement: requires the sender to be a direct
  neighbour. The Python code fails on a lookup of the sender's link cost
  for any non-empty advertisement from a non-neighbour. The excluded call,
  an empty advertisement from a non-neighbour, would succeed there and
  only clear the change flag, hiding a pending change in the same way
  `DistanceVector.LaterNoOpAdvertisementMasksChange` shows.
- ShortestPaths.NextHop: the runtime assertions of `next_hop` in
  `src/ls_router.py` (a predecessor exists, the destination is not the
  router) become preconditions.
- ShortestPaths.ForwardingEntries: assumes no router has id `-1`. The Python
  code uses `-1` as its "no predecessor" marker, so a real router with that
  id collides with it. A node reached through router `-1` gets no
  forwarding entry there, while the model gives it one. If the router's own
  id is `-1`, the assertion in `next_hop` fails during the walk. The model
  reads a missing `prev` key as "no predecessor", which is the evidently
  intended meaning.
- DistanceVector.Confluent: states order independence for the vector only.
  On a tie the forwarding entry keeps the first sender, and the change flag
  reflects the later call, so those two do depend on arrival order.
