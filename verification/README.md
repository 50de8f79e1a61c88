# Agnostic LoRa mesh: a verified model

A LoRa mesh firmware core in C++, a power controller in Go, a session layer in Python and the vendored
Ed25519 and SHA-512 arithmetic in C, modelled in Dafny and proved against what each promises.

| file | models |
|---|---|
| `Limbs`, `ModL` | multi-limb arithmetic and Barrett reduction modulo the Ed25519 group order |
| `Groups`, `Slide`, `Eddsa` | commutative groups; signed sliding windows and the merged double-and-add ladder; when the signature check accepts |
| `Sha512` | incremental SHA-512: block buffer, rolling message schedule, padding |
| `LinkMetric`, `NeighborTable`, `RoutingTable`, `Router`, `AnnounceCodec` | one node of the distance-vector mesh and its announce on the wire |
| `Network` | any number of nodes, stepping by beacons, ticks, blocks and time: whole-run theorems |
| `Topo`, `Sums`, `LinkLoad`, `ConnFloor`, `Policy`, `Engine` | the controller: shortest-path load, connectivity floor, power policy, decrease-then-confirm engine |
| `Session` | counter recovery, replay window, key ratchet, delivery under loss |
| `Sar`, `LinkArq`, `Kiss` | fragment reassembly, hop-by-hop retry, serial framing |
| `LocatorDir` | the locator cache |
| `CtrlBlock` | signed link blocks with a dead-man timer |
| `Basics`, `Bytes`, `BitOps`, `Clock32`, `MeshTypes` | shared definitions |

State that the sources change in place is kept in classes with arrays or fields; each method is tied to a
function of the old state (`View()`), and the lemmas are about those functions, one step at a time and over
whole runs. Loops over local data are loops here. Values computed by expressions are functions.

Conventions:

- Reals stand for floating point costs, qualities and margins. Node ids are numbers compared for equality.
- Router time stamps are kept unwrapped and only their 32-bit difference (`Elapsed32`) is looked at. The cache,
  the block timers and the retry table store wrapped 32-bit stamps; theorems over true time assume the half range
  and say so, and `Clock32.ReachedExact` and `LocatorDir.ExpiredExact` say what happens beyond it.
- The AEAD and key derivation of the session, the six mixing functions and constants of SHA-512, the outcome of
  signing and sending a command, and all clocks are parameters. Points of the curve are elements of a commutative
  group given by its operations and laws (`Groups.Laws`), and reading an encoded point is a parameter.

## What turned out not to hold

- Power direction: a weak link can be turned down and a strong one up. `Policy.RaiseDirection` and
  `Policy.LowerDirection` say exactly when, for every target: it stands outside the power limits, which a value
  reported by the node and taken unclamped may (`Policy.SeedOutsideLimits`, default configuration); the int8 sum
  wraps (`Policy.WrapTurnsDown`); or the configured step is negative after its conversion to int8
  (`Policy.NegativeStepTurnsDown`). With the default steps and a target inside the limits it never happens
  (`Policy.DefaultDirections`).
- Signed blocks: an unblock typed at the console removes the block but not its timer. With all eight timer slots
  live the next signed block is then applied without one and outlives every sweep (`CtrlBlock.ConsoleUnblockBreaks`).
  A block is lifted in time if and only if its victim had a timer or a slot was free when it arrived
  (`CtrlBlock.BlockLiftedExactly`), which without console unblocks is always so (`CtrlBlock.BlockLifted`).
- Convergence: a wanted change of 128 dB or more wraps in int8, and the loop can stop out of band and off the power
  limits (`Policy.WrapStalls`); a band narrower than 1 dB can make it step to and fro for ever
  (`Policy.NarrowBandOscillates`). `Policy.Converges` and `Policy.NeverSettles` say exactly when, at any distance.
- A raise outranks a lower exactly while the two margins sum to less than a million (`Engine.RaisesOutrank`,
  `Engine.LowerFirst`).
- A cached binding read 2^31 ms or more after it expired, but less than 2^32, counts as live again (`LocatorDir.ExpiredExact`).

## Model

| member | source | states |
|---|---|---|
| Network.CountToInfinityBounded | lib/mesh/router.cpp:37-105 | from any tables whose routes to d have at least one hop, after MAX_HOPS windows in which d is silent and every other node ticks once late enough, no node holds a route to d, whatever subset of beacons (or truncated prefixes of them) was heard |
| Network.WindowRaisesHops | lib/mesh/router.cpp:37-105 | while d is silent the least hop count of a live route to d never falls, and each window in which every other node ticks more than its route timeout after the window began raises it by at least one |
| Network.StaysGone | lib/mesh/router.cpp:37-68 | once no node holds a route to a silent destination none ever appears again, in runs of any length, clock wraps included |
| Network.BeaconSpreads | lib/mesh/router.cpp:37-96 | end to end through the wire format: a node that hears a whole beacon and has room reaches through its sender every destination it did not know that the sender reaches in under 16 hops and not through it, one hop further and at the link cost plus the sender's cost to within 1/32 |
| Network.RunHonest | lib/mesh/router.cpp:37-105 | every run of beacons, ticks, blocks and lapses of time keeps every node honest: routes of 1 to 16 hops with cost bounded by hops, and usable qualities |
| Network.CostBounded | lib/mesh/routing_table.cpp:43-81 | in every honest run each stored route to another node has 1 <= hops <= 16 and hops <= cost <= (50 + 1/32) * hops, so COST_INF is never reached, the 16-bit wire cost never saturates and quantising moves it by at most 1/32 |
| Network.BootHonest | lib/mesh/router.cpp:6-9 | a freshly constructed router satisfies the honesty invariant |
| Network.AnnounceSize | lib/mesh/router.cpp:70-96 | an announce built from a node of table size never exceeds the fixed announce arrays |
| RoutingTable.OfferMeaning | lib/mesh/routing_table.cpp:43-81 | an offer touches no other destination and never the self route; its own entry becomes the candidate, stays, is withdrawn by its own next hop, or is refused for want of room, exactly by the acceptance rule with its 1e-4 margin |
| RoutingTable.OfferKeeps | lib/mesh/routing_table.cpp:43-81 | whatever holds of all stored routes and of a reachable candidate holds of all routes after the offer: nothing else can enter |
| RoutingTable.PutUnique | lib/mesh/routing_table.cpp:19-41 | storing a route keeps at most one entry per destination |
| RoutingTable.PruneKeeps | lib/mesh/routing_table.cpp:88-94 | every route that survives pruning was there before and is the self route or young enough |
| RoutingTable.DropViaKeeps | lib/mesh/routing_table.cpp:96-102 | dropping a next hop leaves old routes only, none of them through it except the self route |
| RoutingTable.Table.FindSlot | lib/mesh/routing_table.cpp:5-17 | the linear search returns the first used slot of that destination, or the table size |
| RoutingTable.Table.Alloc | lib/mesh/routing_table.cpp:19-29 | the first free slot is taken and only it changes; a full table changes nothing |
| RoutingTable.Table.PinSelf | lib/mesh/routing_table.cpp:31-41 | the self route is written at cost 0 and 0 hops and the table stays duplicate free |
| RoutingTable.Table.Consider | lib/mesh/routing_table.cpp:43-81 | the in-place table becomes the specified offer; the result says whether it changed, and if so the destination now has exactly the candidate or, for a withdrawal, nothing |
| RoutingTable.Table.NextHop | lib/mesh/routing_table.cpp:83-86 | the next hop of the unique route to the destination, or the zero id |
| RoutingTable.Table.Expire | lib/mesh/routing_table.cpp:88-94 | in place, exactly the stale non-self routes are freed |
| RoutingTable.Table.Drop | lib/mesh/routing_table.cpp:96-102 | in place, exactly the non-self routes through that neighbour are freed |
| RoutingTable.SetSelfMeaning | lib/mesh/routing_table.cpp:31-41 | the self route is at cost 0 and 0 hops whenever it was there or a slot was free, and no other destination changes |
| RoutingTable.PruneMeaning | lib/mesh/routing_table.cpp:88-94 | a route is gone exactly when it is not the self route and older than the timeout |
| RoutingTable.DropViaMeaning | lib/mesh/routing_table.cpp:96-102 | a route is gone exactly when it is not the self route and leads through the dropped hop |
| LinkMetric.QualityFromRf | lib/mesh/link_metric.cpp:9-22 | every frame quality lies in [Q_MIN, Q_MAX] |
| LinkMetric.QualityMonotone | lib/mesh/link_metric.cpp:9-22 | a better SNR and RSSI never give a lower quality |
| LinkMetric.EwmaQuality | lib/mesh/link_metric.cpp:24-28 | the running quality stays usable, starts at the first sample and afterwards lies between the old estimate and the sample |
| LinkMetric.QualityExact | lib/mesh/link_metric.cpp:9-22 | the quality is linear in the SNR from nothing at -17 dB to 1 at +8 dB, halved below -130 dBm and never under 0.02 |
| LinkMetric.EwmaExact | lib/mesh/link_metric.cpp:24-28 | each sample takes three tenths off the distance to it, and outside the usable range the estimate stops at its end |
| NeighborTable.AliasAvailable | lib/mesh/neighbor_table.cpp:20-38 | with fewer than 254 slots the cyclic alias search always finds a real alias |
| NeighborTable.HeardKeepsAliases | lib/mesh/neighbor_table.cpp:54-71 | hearing any node, known or new, keeps the aliases of all used slots real and pairwise distinct |
| NeighborTable.LinkOwnerUnique | lib/mesh/neighbor_table.cpp:40-52 | at most one neighbour matches both aliases of a directed frame |
| NeighborTable.TxCostBounds | lib/mesh/neighbor_table.cpp:119-126 | a first hop costs at least 1 and at most 50 |
| NeighborTable.OperationsKeepQualities | lib/mesh/neighbor_table.cpp:54-140 | every operation keeps each stored quality either unknown or in [Q_MIN, Q_MAX] |
| NeighborTable.Table.FreeAlias | lib/mesh/neighbor_table.cpp:20-38 | the nested search loops return the first alias, cyclically from the base, that no used slot has |
| NeighborTable.Table.Hear | lib/mesh/neighbor_table.cpp:54-71 | in place, the sender is found or inserted with a fresh alias and its quality folded; it reports whether the sender is in the table |
| NeighborTable.Table.ReportTx | lib/mesh/neighbor_table.cpp:73-76 | in place, the reported quality is folded into the sender only |
| NeighborTable.Table.LearnAlias | lib/mesh/neighbor_table.cpp:78-81 | in place, the alias the neighbour uses for us is recorded |
| NeighborTable.Table.LearnCaps | lib/mesh/neighbor_table.cpp:83-86 | in place, the neighbour capabilities are recorded |
| NeighborTable.Table.CostTo | lib/mesh/neighbor_table.cpp:119-126 | one over the clamped reverse quality, between 1 and 50, also for unknown neighbours |
| NeighborTable.Table.Expire | lib/mesh/neighbor_table.cpp:128-140 | in place, exactly the stale neighbours are freed, and their ids are listed in slot order |
| NeighborTable.Table.NeighborByLink | lib/mesh/neighbor_table.cpp:40-52 | the id of the neighbour both aliases agree on, the zero id if there is none |
| NeighborTable.HeardMeaning | lib/mesh/neighbor_table.cpp:54-71 | hearing a node changes no other entry; its own gets the folded quality and the time, a new one an unused alias in the first free slot, and only a full table refuses it |
| NeighborTable.TxCostMeaning | lib/mesh/neighbor_table.cpp:119-126 | the cost of the first hop times the reverse quality is 1, the forward quality playing no part, and it is 50 while that is unknown or below 0.02 |
| NeighborTable.PruneMeaning | lib/mesh/neighbor_table.cpp:128-140 | a tick removes exactly the neighbours silent for longer than the timeout on the wrapping clock |
| NeighborTable.AllocFirst | lib/mesh/neighbor_table.cpp:20-38 | the alias found is the first free one in the cyclic order from the base |
| Router.BlockListMeaning | lib/mesh/router.cpp:11-35 | blocking adds exactly the id if there is room, unblocking with compaction removes exactly the id, and the list stays duplicate free, bounded and without self or zero |
| Router.OnBeaconKeeps | lib/mesh/router.cpp:37-68 | after a beacon every route is an old one, the self route, or a reachable candidate made from one advertisement of that beacon |
| Router.TickKeeps | lib/mesh/router.cpp:98-105 | after a tick only old routes remain and none but the self route is older than the timeout |
| Router.BlockKeeps | lib/mesh/router.cpp:11-27 | blocking and unblocking bring in no route |
| Router.AdvsAreRoutes | lib/mesh/router.cpp:86-95 | an advertisement is in an announce if and only if it repeats destination, next hop, cost and hops of a stored route in use |
| Router.AdvsDistinct | lib/mesh/router.cpp:86-95 | an announce of a table with one route per destination advertises no destination twice |
| Router.ReportsAreNeighbors | lib/mesh/router.cpp:76-84 | a report is in an announce if and only if it gives id, receive quality and our alias of a neighbour heard |
| Router.LearnMeaning | lib/mesh/router.cpp:41-51 | a beacon records the folded receive quality, the capabilities and the time of its sender and of no other neighbour; only a new sender finding the table full is not recorded |
| Router.ReportMeaning | lib/mesh/router.cpp:45-51 | from the first report about us it takes the folded transmit quality and the alias, and without one keeps both |
| Router.BeaconMeaning | lib/mesh/router.cpp:52-67 | after a whole beacon each advertised destination has the route the acceptance rule, written out, gives it on the one known before: taught at link cost plus advertised cost and one hop more when reachable and either already through the sender, or cheaper by more than 1e-4, or new with a free slot; withdrawn when the sender it leads through makes it unreachable; untouched when it or its next hop is this node |
| Router.BeaconTeaches | lib/mesh/router.cpp:57-67 | with more free slots than advertisements, a node without a route takes every advertisement below 16 hops and the cost ceiling that is not split horizon, at link cost plus advertised cost and one hop more |
| Router.BeaconElsewhere | lib/mesh/router.cpp:52-67 | destinations a beacon does not advertise keep their routes |
| Router.BeaconPins | lib/mesh/router.cpp:52 | a beacon without advertisements leaves this node its own route at cost 0 and 0 hops and every other route as it was |
| Router.LinkCostExists | lib/mesh/router.cpp:54-57 | every beacon processed has such a link cost: one over the reverse quality of its sender, 50 while that is unknown |
| Router.TickMeaning | lib/mesh/router.cpp:98-105 | a tick removes exactly the routes through a neighbour silent for too long and those too old themselves, the self route excepted |
| Router.BlockMeaning | lib/mesh/router.cpp:11-28 | a block that takes drops exactly the routes through its victim; an unblock lifts exactly that block and leaves the routes alone |
| Router.Node.IsBlocked | lib/mesh/router.cpp:30-35 | the loop answers membership in the blocked list |
| Router.Node.BlockLink | lib/mesh/router.cpp:11-18 | in place, the id is blocked and routes through it dropped; true exactly when the id is blockable or already blocked |
| Router.Node.UnblockLink | lib/mesh/router.cpp:20-28 | in place, one occurrence is removed by moving the last entry into its slot |
| Router.Node.LearnLink | lib/mesh/router.cpp:43-51 | in place, the neighbour table learns quality, capabilities and the first report about us |
| Router.Node.RelaxRoutes | lib/mesh/router.cpp:52-67 | in place, routes are relaxed over the advertisements in order, skipping ourselves and split horizon |
| Router.Node.Beacon | lib/mesh/router.cpp:37-68 | the whole object goes from its old state to the specified state after a beacon, including the ignored own and blocked senders |
| Router.Node.Announcement | lib/mesh/router.cpp:70-96 | the announce is exactly the specified list of reports and used routes |
| Router.Node.Age | lib/mesh/router.cpp:98-105 | neighbours and then routes are aged as specified, routes through removed neighbours at once |
| AnnounceCodec.CostQuantum | lib/mesh/announce_codec.cpp:38-44 | below saturation the wire cost is within 1/32 of the true cost and never below a whole number the cost reaches |
| AnnounceCodec.QuantisedStable | lib/mesh/announce_codec.cpp:30-44 | quantising a decoded quality or unsaturated cost again changes nothing |
| AnnounceCodec.RoundTrip | lib/mesh/announce_codec.cpp:51-126 | for every buffer capacity, parsing what was serialised yields exactly the longest prefix of reports and then routes that fits, quantised, and is refused exactly when not even the header fits |
| AnnounceCodec.DecodedExact | lib/mesh/announce_codec.cpp:84-126 | the parse of arbitrary bytes, on the bytes themselves: refused exactly when the counts exceed 32 and 64 or the buffer is too short, and every field read from its place |
| AnnounceCodec.QuantaExact | lib/mesh/announce_codec.cpp:30-44 | a quality travels as the nearest 255th, a cost as the nearest sixteenth, both stopping at the ends of their range |
| AnnounceCodec.Serialize | lib/mesh/announce_codec.cpp:51-82 | the buffer holds exactly the specified encoding within its capacity, header written last |
| AnnounceCodec.Deserialize | lib/mesh/announce_codec.cpp:84-126 | for arbitrary bytes the result is the specified parse, malformed counts and short buffers included |
| AnnounceCodec.SerializeReports | lib/mesh/announce_codec.cpp:62-68 | as many reports as fit are written back to back |
| AnnounceCodec.SerializeRoutes | lib/mesh/announce_codec.cpp:69-76 | as many routes as fit are written behind them, leaving the reports alone |
| ModL.EddsaMulAdd | lib/monocypher/monocypher.c:1669-1680 | r = (a * b + c) mod L for all 256-bit inputs, with r allowed to overlap any of them and every intermediate sum inside 64 bits |
| ModL.EddsaReduce | lib/monocypher/monocypher.c:1660-1666 | the 512-bit input reduced modulo L |
| ModL.ModL | lib/monocypher/monocypher.c:1616-1658 | the 256-bit result is exactly x mod L for every 512-bit x |
| ModL.BarrettQuotient | lib/monocypher/monocypher.c:1633-1637 | the estimate floor(x * R / 2^512) is the true quotient or one less, for any modulus and its rounded-down reciprocal |
| ModL.Barrett | lib/monocypher/monocypher.c:1622-1646 | the top limbs of R * x leave a remainder in [0, 2L), so one conditional subtraction suffices |
| ModL.TimesReciprocal | lib/monocypher/monocypher.c:1622-1632 | the first nested loop computes R * x over 25 limbs |
| ModL.QuotientTimesL | lib/monocypher/monocypher.c:1637-1645 | the second, in place over the low limbs it overwrites, computes quotient * L modulo 2^256 |
| ModL.SubtractInto | lib/monocypher/monocypher.c:1646-1652 | x minus the low product, modulo 2^256, by adding the complement |
| ModL.Multiply | lib/monocypher/monocypher.c:1575-1586 | p grows by a * b with no carry lost |
| ModL.IsAboveL | lib/monocypher/monocypher.c:1588-1598 | the carry out of x + ~L + 1 is 1 exactly when x >= L |
| ModL.RemoveL | lib/monocypher/monocypher.c:1604-1613 | x - L if x >= L and x otherwise, in place or not, for x below 2L |
| ModL.AddRow | lib/monocypher/monocypher.c:1604-1613 | the masked complement is added limb by limb with its carry |
| ModL.TableValues | lib/monocypher/monocypher.c:1569-1621 | the limb tables hold the group order 2^252 + 27742317777372353535851937790883648493 and the floor of 2^512 over it |
| ModL.Load32LeBuf | lib/monocypher/monocypher.c:128-130 | little-endian limbs of a byte string have its value |
| ModL.Store32LeBuf | lib/monocypher/monocypher.c:134-136 | limbs written little-endian have their value |
| Limbs.MulRow | lib/monocypher/monocypher.c:1578-1584 | one row of the schoolbook product: the invariant that weighs limbs and carry holds, carries stay below 2^32 and nothing outside the row changes |
| Slide.Recode | lib/monocypher/monocypher.c:1919-1964 | for every width 2 to 8 and scalar below 2^253 the digits weighted by 2^i sum to the scalar, each zero or odd and within its table |
| Slide.Ladder | lib/monocypher/monocypher.c:2002-2020 | for any commutative group of points the merged double-and-add loop yields [s]B - [h]A |
| Slide.Turn | lib/monocypher/monocypher.c:2009-2020 | one turn of the ladder keeps both recodings ready for the next position and the sum at the combination of the digits taken so far |
| Slide.DoubleAndAdd | lib/monocypher/monocypher.c:2011-2018 | doubling [a](-A) + [b]B and adding both digits through their tables gives [2a + hDigit](-A) + [2b + sDigit]B in the group |
| Slide.AddDigitMeaning | lib/monocypher/monocypher.c:2014-2018 | adding a digit through the odd-multiples table adds digit times the point in the group, for either sign |
| Slide.BuildLut | lib/monocypher/monocypher.c:1990-2000 | for any group element the table built from one doubling holds its odd multiples |
| Slide.SlideCtx.constructor | lib/monocypher/monocypher.c:1919-1938 | the start position is one past the top set bit, at least 1; no digit is taken and the whole scalar is owed |
| Slide.SlideCtx.CheckWindow | lib/monocypher/monocypher.c:1942-1962 | when the check is due a window is opened or a bit skipped, and what is still owed is unchanged |
| Slide.SlideCtx.Step | lib/monocypher/monocypher.c:1940-1964 | each step appends one digit below those taken and keeps taken (at the weight of the position) plus owed equal to the scalar; the digit is zero or a valid table digit |
| Slide.SlideCtx.Finished | lib/monocypher/monocypher.c:2009-2020 | after position 0 the digits taken are the whole scalar |
| Slide.NextWindow | lib/monocypher/monocypher.c:1942-1961 | the window removes exactly its digit from what is owed, and the digit lies at a position inside it |
| Slide.WindowValue | lib/monocypher/monocypher.c:1947-1952 | the loop reads the window as a signed number with its carry bit |
| Slide.SignedWindow | lib/monocypher/monocypher.c:1946-1952 | splitting off a window preserves the signed value of the remaining bits |
| Slide.SignedSkip | lib/monocypher/monocypher.c:1943-1944 | skipping a bit equal to its lower neighbour changes no value |
| Slide.WindowDigitRange | lib/monocypher/monocypher.c:1943-1952 | a window opened at two different bits has a non-zero value of bounded size |
| Slide.OddShift | lib/monocypher/monocypher.c:1953-1957 | the three masks on v & -v give the exact power of two in v, leaving an odd digit that fits the table |
| Slide.LowestBit | lib/monocypher/monocypher.c:1953-1957 | u & -u is the largest power of two dividing u |
| Slide.ScalarBelowOrder | lib/monocypher/monocypher.c:1921-1930 | every scalar below the group order qualifies for the recoding |
| Slide.AllBits | lib/monocypher/monocypher.c:1480-1484 | the single bits read by the recoding are the binary digits of the little-endian value |
| Eddsa.CheckEquation | lib/monocypher/monocypher.c:1970-2035 | over any commutative group the check accepts exactly when both points decode, s < L and [8]([s]B - [h]A - R) is zero |
| Eddsa.GenuineAccepted | lib/monocypher/monocypher.c:2305-2319 | a signature made of [r]B and s = (h * a + r) mod L under the key [a]B is accepted, B having order L |
| Eddsa.AcceptedUnique | lib/monocypher/monocypher.c:1977-1988 | the bound on s rules out malleability: with R, the key and the hash fixed, only one 64-byte string is accepted |
| Eddsa.SignerSolves | lib/monocypher/monocypher.c:2315-2319 | the scalar the signer computes solves the equation for every cofactor and order |
| Eddsa.IsReduced | lib/monocypher/monocypher.c:1980-1988 | answers whether the second half of a signature is below L |
| LinkLoad.Loads | controller/internal/policy/engine.go:20-96 | on the graph of the links, one edge per usable link at its price: raw load of a link = number of ordered pairs whose shortest path crosses it; the raw loads sum to all hop counts; normalised loads lie in (0,1], are raw over maximum, and one of them is 1 |
| LinkLoad.ShortestPaths | controller/internal/policy/engine.go:46-69 | the selection loop ends with a shortest-path tree of the usable links |
| LinkLoad.TreeIsShortest | controller/internal/policy/engine.go:44-83 | in such a tree a node has a distance exactly when it is reachable, and its predecessor chain ends at the source and is a minimum-cost walk |
| LinkLoad.Nearest | controller/internal/policy/engine.go:54-62 | the scan picks an unvisited node of least finite distance, none exactly when none is left |
| LinkLoad.RelaxEdge | controller/internal/policy/engine.go:64-68 | relaxing one link keeps the invariant of the partial tree |
| LinkLoad.WalkBack | controller/internal/policy/engine.go:74-81 | walking back from a destination adds one to exactly the links on its chain and hop count in total |
| LinkLoad.CrossesMeaning | controller/internal/policy/engine.go:74-81 | a link is counted exactly when it lies on the chain walk |
| LinkLoad.CountPair | controller/internal/policy/engine.go:70-82 | counting one more pair keeps every counter equal to the number of pairs that cross the link |
| LinkLoad.CountSource | controller/internal/policy/engine.go:70-82 | after one source all its reachable pairs are counted, each once |
| LinkLoad.RawLoads | controller/internal/policy/engine.go:44-83 | after all sources all reachable ordered pairs are counted, each once |
| LinkLoad.Peak | controller/internal/policy/engine.go:84-89 | the largest counter |
| LinkLoad.Normalise | controller/internal/policy/engine.go:84-94 | counters divided by the largest, in (0,1] with maximum 1 |
| LinkLoad.BuildGraph | controller/internal/policy/engine.go:27-43 | exactly the edges of the fresh usable links at their price, and their end points |
| LinkLoad.GraphMeaning | controller/internal/policy/engine.go:27-43 | every recent link with a quality or a measurement is an edge between its ends whose cost times its quality is 1, capped at 20 and 2 for a link only measured, and there are no other edges |
| LinkLoad.OneGraph | controller/internal/policy/engine.go:27-43 | these conditions determine the graph: two graphs of the same links are equal |
| LinkLoad.BetterCostsLess | controller/internal/policy/engine.go:36-41 | above the clamp the better of two links costs strictly less, and a quality in (0, 1] costs between 1 and 20 |
| ConnFloor.ReachExcluding | controller/internal/policy/engine.go:220-239 | the breadth-first search returns exactly the nodes joined to the start by a path that avoids the excluded node |
| ConnFloor.Visit | controller/internal/policy/engine.go:228-236 | one queue step keeps seen sound and closed behind the queue |
| ConnFloor.AdjUndirected | controller/internal/policy/engine.go:205-215 | two nodes are adjacent exactly when a fresh usable link joins them in either direction |
| ConnFloor.Observe | controller/internal/policy/engine.go:165-188 | the view shows a usable outbound link of least margin, the margin written out on the link, and is unseen exactly when there is none |
| ConnFloor.KeepLinks | controller/internal/policy/engine.go:285-307 | the governing link is the weakest among all links to cut-off peers and the best `redundancy` uplinks; something is always kept, so the defensive branch is dead |
| ConnFloor.ObserveConnFloor | controller/internal/policy/engine.go:256-313 | the view shows the link of least margin among those the node keeps, relative to the exact set of peers keeping the gateway: links to peers outside it, and uplinks with fewer than max(1, redundancy) stronger ones |
| ConnFloor.FloorMeaning | controller/internal/policy/engine.go:256-312 | the governing link in terms of the snapshot: the weakest of the links whose peer would be cut off or which fewer than max(1, redundancy) stronger uplinks outrank, counted by place |
| ConnFloor.StrongerCounts | controller/internal/policy/engine.go:286-303 | the rank of an uplink in the sorted list is the number of usable uplinks in the snapshot with a greater margin |
| ConnFloor.MarginExact | controller/internal/policy/policy.go:31-39 | the margin is the SNR plus 2.5 dB for each spreading factor above 4, 9 standing in for unknown factors, measured or 25q - 17 for an estimated link |
| ConnFloor.QualityInverted | controller/internal/policy/engine.go:150-158 | the controller's estimate inverts the firmware's quality of a frame from -16.5 to +8 dB |
| ConnFloor.GovernsPermuted | controller/internal/policy/engine.go:282-284 | the governing margin does not depend on the order of the links |
| ConnFloor.Sort | controller/internal/policy/engine.go:284 | the links in descending margin, a permutation of the input |
| ConnFloor.Collect | controller/internal/policy/engine.go:260-275 | exactly the usable outbound links in order |
| ConnFloor.FloorAgainstClassic | controller/internal/policy/engine.go:190-201 | of the two observations of a node, what Observe and what ObserveConnFloor promise: both see it or neither; the floor margin is never below the classic one, equals it exactly when some weakest link is needed, and always without a gateway |
| Policy.Converges | controller/internal/policy/policy.go:148-223 | when margin follows power dB for dBm, from any distance, the loop holds after at most as many changes as the distance to the middle of the band plus 1/2 and stays unless it straddles a band narrower than 1 dB; it has then arrived, in the band, at a power limit or within half a dB of the middle, exactly when the wanted change fits int8 or what int8 leaves of it uses up the room or brings the margin into the band |
| Policy.OneCycle | controller/internal/policy/policy.go:180-222 | a cycle holds exactly in the band, at a power limit, or when the wanted change rounds or wraps to nothing; else it moves at least 1 dB and at most the step towards the band, never more than half a dB past its middle |
| Policy.UpMove | controller/internal/policy/policy.go:183-187 | below the band, at any distance, power rises by the least of the wanted change in int8, the step and the room left |
| Policy.DownMove | controller/internal/policy/policy.go:188-198 | above the band, at any distance, power falls by the least of the wanted change in int8, the step and the room left |
| Policy.EndKept | controller/internal/policy/policy.go:183-222 | a cycle that moves changes nothing about where the loop ends or whether it ever does |
| Policy.NeverSettles | controller/internal/policy/policy.go:183-222 | a loop that straddles a band narrower than 1 dB never holds |
| Policy.NarrowBandOscillates | controller/cmd/agnctl/main.go:67-68 | with both ends of the band at 9 dB a margin of 8.5 dB goes up and down for ever |
| Policy.WrapStalls | controller/cmd/agnctl/main.go:67-68 | a margin of -200 dB under the default configuration, or of 0 under a band of 150 to 160 dB, is held below the band and below the maximum power |
| Policy.HoldExact | controller/internal/policy/policy.go:148-223 | for every configuration with ordered limits and every target, a seen node is held exactly when in the band, soft readings above it included, or when the change neither falls nor rises |
| Policy.RaiseExact | controller/internal/policy/policy.go:162-187 | below the band the decision, written out: raised by the nearest whole distance to the middle of the lifted band as int8 keeps it, between nothing and the step, a mobile node by its faster one, then cut to int8 and the limits |
| Policy.TrimExact | controller/internal/policy/policy.go:188-221 | above the band a measured node is lowered likewise, a mobile one by its own step |
| Policy.HoldInBand | controller/internal/policy/policy.go:151-206 | a node nobody hears is skipped; one in the lifted band is held, and so is an estimated margin above it |
| Policy.HardenedBand | controller/internal/policy/policy.go:162-180 | a loaded or mobile link is decided on as a plain one whose band lies higher by the reserve for its load plus that for mobility |
| Policy.RaiseDirection | controller/internal/policy/policy.go:183-222 | for every target and configuration with ordered limits, a link below the band is turned down exactly when the target stands above the maximum, or stands above the minimum and the step is negative or the int8 sum wraps; with steps of at least 0 exactly when cur > max, or cur + delta > 127 and cur > min; and up exactly as stated by Rises |
| Policy.LowerDirection | controller/internal/policy/policy.go:188-222 | the mirror image: a measured link above the band is turned up exactly when cur < min, or cur + delta < -128 and cur < max, and with a negative step exactly as stated by Rises; and down exactly as stated by Falls |
| Policy.MoveExact | controller/internal/policy/policy.go:209-222 | adding a change to a target in int8 and clamping lowers, or raises, the target exactly in the stated cases, for all int8 targets |
| Policy.SeedOutsideLimits | controller/internal/policy/engine.go:386-390 | under the default configuration a weak link seeded at 30 dBm is turned down to 22, measured or estimated, and a strong one seeded at -20 dBm is turned up to -9 |
| Policy.WrapTurnsDown | controller/cmd/agnctl/main.go:197 | with a max-step of 120 and the default limits a weak link at 22 dBm is turned down to -9 by the wrap |
| Policy.NegativeStepTurnsDown | controller/cmd/agnctl/main.go:197 | a max-step of 200 becomes -56 in the unchecked conversion and turns a weak link down to -9 |
| Policy.DefaultDirections | controller/internal/policy/policy.go:86-89 | with the default steps and limits and any band, a target inside the limits never moves the wrong way |
| Policy.ChangeWithinLimits | controller/internal/policy/policy.go:209-222 | a change lands inside the limits and really changes; Hold and Skip keep the target |
| Policy.SoftNeverTrims | controller/internal/policy/policy.go:188-196 | a quality-only estimate lowers the power exactly when it lies below the band and the raise falls as above; with the target at most the maximum and no wrap it never does |
| Engine.ConfirmsMatch | controller/internal/policy/engine.go:321-334 | in every run each CONFIRM repeats the dBm of the decrease it confirms, with no event for that node in between |
| Engine.NoPowerWhileOpen | controller/internal/policy/engine.go:436-484 | in every run between a decrease and the next POWER to that node, heartbeats included, lies its CONFIRM or abandonment |
| Engine.ChangesApart | controller/internal/policy/engine.go:420-434 | in every run with Settle > 0 two sent power changes are at least Settle apart |
| Engine.ChangesBoundPowers | controller/internal/policy/engine.go:317-489 | in every run whose changes lie in the power limits every POWER does, heartbeats included |
| Engine.OpenDecrease | controller/internal/policy/engine.go:461-464 | a decrease still open is the last event of its node and fixes the dBm to confirm |
| Engine.Append | controller/internal/policy/engine.go:317-489 | an allowed event extends a disciplined history |
| Engine.RaisesOutrank | controller/internal/policy/engine.go:122-127 | a raise outranks a lower exactly while their margins sum to less than a million |
| Engine.LowerFirst | controller/internal/policy/engine.go:122-127 | the default policy trims a link reported a million dB strong before it raises any node whose margin is not negative |
| Engine.Pick | controller/internal/policy/engine.go:425-433 | the change of highest priority, none exactly when nothing wants to change |
| Engine.Controller.ResolveOne | controller/internal/policy/engine.go:323-342 | one pending decrease: confirmed with its own dBm if heard and sendable, closed if heard but not sendable, given up at the second miss, else kept with one miss more; nothing else changes |
| Engine.Controller.Close | controller/internal/policy/engine.go:325-334 | a pending decrease is forgotten, with its CONFIRM in the history exactly when it was sent |
| Engine.Controller.ResolvePending | controller/internal/policy/engine.go:323-343 | afterwards pending are exactly the decreases unheard for the first time, with one miss more; only their ends are recorded, and when sending works every heard one was confirmed and its node spoken to now |
| Engine.Controller.ObserveNode | controller/internal/policy/engine.go:370-379 | classic or connectivity-floor observation by configuration |
| Engine.Controller.DecideFor | controller/internal/policy/engine.go:362-417 | the candidate is the policy verdict on that observation and load, mobile trims held until the streak is long enough; seed, target and streak maps change exactly as stated |
| Engine.Controller.DecideAll | controller/internal/policy/engine.go:356-418 | one candidate, in snapshot order, for each node other than the gateway under no access list or allowed by it; each is the decision on what is seen of that node over exactly the usable links and routed loads, on its target and streak before the cycle, written out field by field, with the streak afterwards the one that follows |
| Engine.Controller.ApplyChange | controller/internal/policy/engine.go:453-472 | history, targets, pending, misses, the time last spoken to and the window change exactly when the command went out; dry-run only advances the window |
| Engine.Controller.Beat | controller/internal/policy/engine.go:473-483 | a heartbeat repeats the current target exactly when due and sendable, and counts as speaking to the node |
| Engine.Controller.Turn | controller/internal/policy/engine.go:437-486 | one turn adds exactly its events and changes targets, pending, misses, last times and the window as these say, nothing else |
| Engine.Controller.Prepare | controller/internal/policy/engine.go:321-418 | first half of a cycle: only ends of pending decreases are recorded, the candidates are the verdicts on all managed nodes, and none that acts is waiting |
| Engine.Controller.Serve | controller/internal/policy/engine.go:436-488 | second half: what is sent is exactly what the turns bring when sending works, never more, nothing in a dry-run, and no node is addressed twice; targets, pending, misses and the window follow from what was sent |
| Engine.Controller.Tick | controller/internal/policy/engine.go:317-489 | a whole cycle on the state before it: every managed node is decided on and reported; when commands get through, each decrease heard again has its CONFIRM, each change that may be made its POWER, and a node has a heartbeat at the power it holds if and only if it is held, was not waiting, and was last sent a command at least the heartbeat period ago; nothing else is sent, and no node is sent two POWERs; every POWER ever sent stays inside ordered limits, and targets, misses and the settle window are what this leaves behind |
| Engine.Controller.CycleHistory | controller/internal/policy/engine.go:317-489 | the two halves of a cycle put together: a node confirmed a moment ago is not quiet any more, so the heartbeats of the cycle are those due on the state before it |
| Engine.Controller.TrimsEveryHold | controller/internal/policy/engine.go:402-416 | through every run of cycles a mobile node is trimmed exactly at every MobileLowerHold-th cycle in a row that asks for it |
| Engine.Controller.AllCovered | controller/internal/policy/engine.go:356-365 | the candidates are exactly the nodes to manage, each once and in snapshot order |
| Engine.Controller.constructor | controller/internal/policy/engine.go:129-135 | an empty engine satisfies the invariant and has sent nothing |
| Engine.Controller.SetApply | controller/internal/policy/engine.go:494-498 | only the mode changes, commands go out exactly when it is on and there is a key, and the invariants stay |
| Session.Delivered | hostlib/aln_session/session.py:211-243 | in every schedule of timely deliveries (any loss, any reordering within the windows, each REKEY between its epochs) the delivered frame opens to exactly the sent type, plaintext and counter, and the receiver key is the sender key of that epoch |
| Session.AllDelivered | hostlib/aln_session/session.py:211-243 | receiving a whole timely schedule of frames a sender put on the air, a fresh receiver opens each to what was sealed and ends with the key of the epoch |
| Session.LosslessOpensAll | hostlib/aln_session/session.py:211-243 | without loss every frame of a run opens in turn and both ends stand at the same key |
| Session.InOrderSchedule | hostlib/aln_session/session.py:211-243 | loss-free in-order delivery of any run is such a schedule and ends in the epoch of the sender |
| Session.NeverTwice | hostlib/aln_session/session.py:228-243 | whatever frames arrive, no counter is opened twice |
| Session.GenuineFrameOpens | hostlib/aln_session/session.py:211-243 | a genuine frame within 0x7FFF of the expected counter, inside the replay window and new, opens to what was sealed and updates the receiver |
| Session.NonceInjective | hostlib/aln_session/session.py:69-72 | under one salt two different 64-bit counters never give the same nonce |
| Session.Session.NonceNeverReused | hostlib/aln_session/session.py:151-159 | in every run no two sealed frames share a key and nonce, rekeys included |
| Session.Session.Seal | hostlib/aln_session/session.py:151-159 | the frame is the specified one for key and counter, the counter advances by one, and the run so far stays the run of one initial key; None exactly when the 64-bit counter is spent |
| Session.Session.SendRekey | hostlib/aln_session/session.py:263-281 | the announcement is sealed under the old key, then the key ratchets once and the message count restarts |
| Session.Session.Decrypt | hostlib/aln_session/session.py:211-243 | opens exactly the admissible frames and changes nothing on any other: key, high mark and every counter ever accepted are those of the specified receiver |
| Session.OpensExactly | hostlib/aln_session/session.py:211-243 | with no assumption on the cryptography, a frame opens to (t, p, n) if and only if it has at least 21 bytes, our flow, type t, a 64-bit n with its low bits within 0x7FFF of the counter expected, n new and inside the window, and opening its ciphertext under the nonce of n and its own header gives p; the receiver then admits n and on a REKEY ratchets, and is unchanged on every other frame |
| Session.ForgeryRefused | hostlib/aln_session/session.py:228-237 | a frame that authenticates under no counter is refused and leaves the receiver as it was |
| Session.FrameExact | hostlib/aln_session/session.py:151-159 | a sealed frame on its bytes: type, flow and low counter bits, then the ciphertext authenticated with these five |
| Session.WhyRefused | hostlib/aln_session/session.py:219-237 | the reason given follows the order of the checks |
| Session.NonceMeaning | hostlib/aln_session/session.py:69-72 | the nonce is the salt with the counter, least significant byte first, folded into its first eight bytes |
| Session.ReconstructIff | hostlib/aln_session/session.py:195-209 | a counter is recovered if and only if it is not negative, has those low bits and is within 0x7FFF of the one expected |
| Session.Session.RecoverCounter | hostlib/aln_session/session.py:195-209 | the candidate loop returns the nearest counter with those low bits, or None when it is too far |
| Session.Session.constructor | hostlib/aln_session/session.py:97-121 | both ends start at counter 0 with salts derived from their keys |
| Session.ReconstructExact | hostlib/aln_session/session.py:195-209 | a counter is recovered from its low 16 bits exactly when it is within 0x7FFF of the expected one |
| Session.ReconstructSound | hostlib/aln_session/session.py:195-209 | whatever is recovered is non-negative, has those low bits and is within 0x7FFF |
| Session.SlidingWindow.CheckAndSet | hostlib/aln_session/session.py:75-91 | a counter is accepted exactly when inside the window and never accepted before, for the whole life of the window; highest is the maximum |
| Session.AfterFacts | hostlib/aln_session/session.py:228-243 | after any deliveries the receiver is in the epoch of the rekeys delivered, its high mark is the maximum and its accepted set is what was delivered |
| Sha512.HashChunks | lib/monocypher/monocypher-ed25519.c:212-302 | for every way of cutting a message into updates the digest is the compression folded over the padding of the whole message |
| Sha512.Hash | lib/monocypher/monocypher-ed25519.c:304-310 | the one-shot digest is the same function |
| Sha512.Context.Update | lib/monocypher/monocypher-ed25519.c:212-273 | the bytes are appended to the message whatever the buffer position, by bytes, words and whole blocks |
| Sha512.Context.Final | lib/monocypher/monocypher-ed25519.c:275-302 | the output is the digest of everything absorbed |
| Sha512.Context.constructor | lib/monocypher/monocypher-ed25519.c:196-210 | the empty message with the initial hash value of FIPS 180-4 section 5.3.5 |
| Sha512.Context.SetInput | lib/monocypher/monocypher-ed25519.c:180-185 | or-ing the shifted byte into its word appends it to the buffer |
| Sha512.Context.FillWord | lib/monocypher/monocypher-ed25519.c:221-230 | bytes up to the next word boundary |
| Sha512.Context.FillBlock | lib/monocypher/monocypher-ed25519.c:232-239 | words up to the next block boundary |
| Sha512.Context.FlushBlock | lib/monocypher/monocypher-ed25519.c:241-247 | a full buffer is compressed, its 1024 bits counted, and the buffer cleared |
| Sha512.Context.EatBlocks | lib/monocypher/monocypher-ed25519.c:249-257 | all whole blocks are compressed |
| Sha512.Context.FillTail | lib/monocypher/monocypher-ed25519.c:260-272 | the rest goes to the buffer; loading words at offset 0 is right because fewer than eight bytes remain otherwise |
| Sha512.Context.Terminate | lib/monocypher/monocypher-ed25519.c:277-294 | padding bit, length and last block or blocks give the fold over the padded message |
| Sha512.Context.EndLong | lib/monocypher/monocypher-ed25519.c:286-294 | when the length does not fit a penultimate block is compressed and the clobbered buffer rewritten |
| Sha512.Context.EndShort | lib/monocypher/monocypher-ed25519.c:291-294 | otherwise one last block |
| Sha512.Context.StoreHash | lib/monocypher/monocypher-ed25519.c:296-299 | the hash words are written big-endian |
| Sha512.Context.CompressBlock | lib/monocypher/monocypher-ed25519.c:144-177 | the eighty rounds with the rolling sixteen-word schedule equal the eighty-word schedule of FIPS 180-4 section 6.4.2 |
| Sha512.Context.NextWord | lib/monocypher/monocypher-ed25519.c:161-164 | updating a slot from its neighbours produces the next schedule word |
| Sha512.RollingStep | lib/monocypher/monocypher-ed25519.c:162-164 | the neighbours read modulo 16 are words t-2, t-15, t-7 and t-16 |
| Sha512.RoundMod | lib/monocypher/monocypher-ed25519.c:151-157 | a round summed in the order of the code, reduced at each addition, is the round of the standard |
| Sha512.CompressExact | lib/monocypher/monocypher-ed25519.c:144-178 | the compression as the standard writes it, every sum spelled modulo 2^64: any eighty words satisfying the recurrence and any working variables satisfying the rounds give its outcome when added to the hash value |
| Sha512.Incr | lib/monocypher/monocypher-ed25519.c:188-194 | a 128-bit number in two words grows modulo 2^128 |
| Sha512.Align | lib/monocypher/monocypher-ed25519.c:77-80 | the least number of bytes to the next boundary |
| Sha512.OrByte | lib/monocypher/monocypher-ed25519.c:180-185 | or-ing a byte into a word whose later bytes are clear writes that byte |
| Sha512.ShortTail | lib/monocypher/monocypher-ed25519.c:275-294 | the padded message is whole blocks and one last block when the tail has at most 111 bytes |
| Sha512.LongTail | lib/monocypher/monocypher-ed25519.c:275-294 | and two last blocks otherwise |
| Sha512.PaddingInjective | lib/monocypher/monocypher-ed25519.c:275-294 | messages below 2^128 bits with equal padded forms are equal |
| Sha512.PaddingExact | lib/monocypher/monocypher-ed25519.c:275-294 | the padded form is the message, 0x80, zeros and sixteen bytes of length, in the least whole number of blocks |
| Sha512.LengthExact | lib/monocypher/monocypher-ed25519.c:284-293 | these bytes are the length in bits, the most significant first |
| Sha512.WordExact | lib/monocypher/monocypher-ed25519.c:82-108 | word i of a block is its bytes 8i to 8i + 7, the first the most significant |
| Sha512.DigestExact | lib/monocypher/monocypher-ed25519.c:294-300 | the digest is the eight words of the last hash value in turn, each most significant byte first |
| Sha512.IvExact | lib/monocypher/monocypher-ed25519.c:196-210 | the initial hash value is the fractions of the square roots of the first eight primes to 64 places |
| Sha512.ExpandFacts | lib/monocypher/monocypher-ed25519.c:158-164 | the schedule starts with the block and each further word satisfies the recurrence |
| Sar.Delivered | lib/mesh/sar.cpp:51-107 | from any state that holds nothing or only this blob under the identifier, in any order with repetitions and rejected rubbish in between, the transfer completes exactly when every index is held or arrives, and then the buffer is the blob and verifies |
| Sar.AddedKeeps | lib/mesh/sar.cpp:51-94 | after any payload the count equals the number of set flags below the fragment count and a refused payload changes nothing |
| Sar.AcceptedExactly | lib/mesh/sar.cpp:51-87 | a payload is taken if and only if, on its bytes, the magic, a count of 1 to 53 implied by a length of at most 8192, an index below it, a chunk of just the size implied, and no contradiction to the transfer under way |
| Sar.StoredExactly | lib/mesh/sar.cpp:74-94 | it starts over unless its transfer is under way, marks its own index and writes its chunk to its own place and nothing else |
| Sar.CompleteExactly | lib/mesh/sar.cpp:105-107 | complete exactly when every index below the count is marked |
| Sar.MissingExact | lib/mesh/sar.cpp:96-107 | the missing list is exactly the unset indices in ascending order, empty exactly when complete |
| Sar.CompleteIsBlob | lib/mesh/sar.cpp:105-107 | a complete transfer whose fragments came from one blob is that blob and verifies |
| Sar.RunHeld | lib/mesh/sar.cpp:51-94 | over a run the indices held are those held before and those that arrived |
| Sar.GenuineAdded | lib/mesh/sar.cpp:51-94 | a genuine fragment is taken and adds exactly its own index |
| Sar.ChunkFits | lib/mesh/sar.cpp:89 | a consistent chunk ends inside the declared length, so the later bounds check never fires |
| Sar.ParseEncode | lib/mesh/sar.cpp:32-63 | the header fields and chunk are read back as written |
| Sar.ParseExact | lib/mesh/sar.cpp:23-30 | the fields of a fragment, least significant byte first, at 4, 6, 8, 10 and 14, the chunk from 18 on |
| Sar.FragmentExact | lib/mesh/sar.cpp:32-49 | what is sent on its bytes: the fields in their places and the idx-th 160 bytes of the blob |
| Sar.FragCountExact | lib/mesh/sar.h:32-35 | enough fragments of 160 bytes and no more |
| Sar.BuildFragment | lib/mesh/sar.cpp:32-49 | written exactly when the index exists and it fits, and then it is the encoding of that fragment; nothing else changes |
| Sar.Reassembler.Add | lib/mesh/sar.cpp:51-94 | the arrays and fields go exactly to the specified state, with the specified answer |
| Sar.Reassembler.ListMissing | lib/mesh/sar.cpp:96-103 | as many missing indices as fit, lowest first, the rest of the buffer untouched |
| Sar.Reassembler.Verify | lib/mesh/sar.cpp:158-160 | in every valid state, fresh and inactive ones included: complete and checksum equal |
| Sar.Reassembler.Reset | lib/mesh/sar.h:91 | only the active flag and count are cleared |
| Sar.CrcOf | lib/mesh/sar.cpp:7-16 | the bitwise loop computes the checksum function |
| Sar.CrcDetectsByte | lib/mesh/sar.cpp:7-16 | damage confined to one byte always changes the checksum |
| Sar.CrcBitExact | lib/mesh/sar.cpp:10-14 | one step is division by x modulo the polynomial of IEEE 802.3, coefficient by coefficient |
| Sar.CrcFramed | lib/mesh/sar.cpp:7-16 | the register starts with all digits set, takes each byte into its low digits, divides eight times and is complemented at the end |
| Sar.NackRoundTrip | lib/mesh/sar.cpp:116-137 | a request is read back as built, cut only by the capacity of the reader |
| Sar.WantedExact | lib/mesh/sar.cpp:112-137 | what an arbitrary payload asks for, on its bytes: as many indices as are claimed, carried and wanted |
| Sar.BuildNack | lib/mesh/sar.cpp:116-127 | the request holds as many indices as fit |
| Sar.ParseNack | lib/mesh/sar.cpp:129-137 | for arbitrary bytes, the specified reading, never past the payload |
| Kiss.Resync | lib/mesh/kiss.h:56-76 | from every decoder state, of two frames up to 801 bytes the second is reported exactly; the first too unless the decoder was in mid-frame |
| Kiss.RoundTrip | lib/mesh/kiss.h:35-76 | any list of frames is reported back in order, without those over 801 bytes |
| Kiss.WireBytes | lib/mesh/kiss.h:35-48 | on the wire 0xC0 stands only at both ends of a frame; inside it is sent as 0xDB 0xDC, 0xDB as 0xDB 0xDD, every other byte as itself |
| Kiss.EscapeExact | lib/mesh/kiss.h:56-76 | an escaped byte other than the two codes is taken as it stands, a delimiter closes what there is, and the 802nd byte drops the frame |
| Kiss.TextBetween | lib/mesh/kiss.h:56-76 | text without delimiters between frames disturbs nothing |
| Kiss.Encode | lib/mesh/kiss.h:35-48 | succeeds exactly when the capacity is at least four and holds the stuffed frame, and then writes it |
| Kiss.PutByte | lib/mesh/kiss.h:41-44 | one byte is escaped if need be and room for the closing delimiter is kept |
| Kiss.Decoder.Take | lib/mesh/kiss.h:56-76 | one byte takes the decoder to the specified state and reports the specified frame |
| Kiss.Decoder.TakeAll | lib/mesh/kiss.h:56-76 | feeding a run of bytes reports the specified frames |
| Kiss.FeedFrame | lib/mesh/kiss.h:56-76 | from idle one frame is reported exactly or dropped whole |
| Kiss.FeedStuff | lib/mesh/kiss.h:63-74 | inside a frame the stuffed bytes come back as they were |
| LocatorDir.LastBindingFound | lib/mesh/locator_dir.cpp:82-156 | in any run a lookup finds the last accepted registration, unless it was since replaced, removed or evicted, exactly until its lifetime ends |
| LocatorDir.RecentFound | lib/mesh/locator_dir.cpp:82-156 | an accepted registration is found exactly until its lifetime ends after every run that registers or looks up fewer than 32 distinct other identifiers within it, and does not replace or remove it |
| LocatorDir.RecentSpared | lib/mesh/locator_dir.cpp:82-156 | a live binding touched last is not evicted, expired or changed by any such run; only identifiers the run names are touched after it |
| LocatorDir.NotEvicted | lib/mesh/locator_dir.cpp:89-100 | a live binding is never the victim while fewer than 32 distinct identifiers, the new one included, were touched after it |
| LocatorDir.UpsertMeaning | lib/mesh/locator_dir.cpp:102-124 | a well-formed registration over a cached binding is taken if and only if its lifetime is over by the signed clock difference, or the epochs differ, or they are equal and the sequence number is 1 to 0x7FFF ahead modulo 2^16; it then is the binding, a refused one changes nothing, and only a fair victim can lose its slot |
| LocatorDir.RegistrationOrder | lib/mesh/locator_dir.cpp:102-124 | in true time: a registration replaces a binding if and only if the lifetime is over, the node rebooted, or its unwrapped number is greater; so another boot always does and a stale number never does before its lifetime is over |
| LocatorDir.LookupMeaning | lib/mesh/locator_dir.cpp:126-134 | reports exactly the cached unexpired binding, drops an expired one, refreshes the stamp, touches no other identifier |
| LocatorDir.RemoveMeaning | lib/mesh/locator_dir.cpp:151-156 | removes exactly that identifier and reports whether it was there |
| LocatorDir.AllocFair | lib/mesh/locator_dir.cpp:89-100 | the first free slot, else the last expired one of a full table, else the least recently touched of all live ones |
| LocatorDir.RunKeeps | lib/mesh/locator_dir.cpp:82-156 | every run keeps identifiers unique and stamps distinct |
| LocatorDir.BindingStays | lib/mesh/locator_dir.cpp:82-156 | a binding survives unchanged all operations that spare it |
| LocatorDir.ExpiredExact | lib/mesh/locator_dir.h:110 | the wrapped test agrees with true time within the half range, and beyond it an expired binding reads as live |
| LocatorDir.NewerExact | lib/mesh/locator_dir.h:59-60 | serial comparison orders numbers less than half the space apart and is asymmetric |
| LocatorDir.LocatorDir.Find | lib/mesh/locator_dir.cpp:82-87 | the first slot in use with that identifier |
| LocatorDir.LocatorDir.Alloc | lib/mesh/locator_dir.cpp:89-100 | the loop finds the specified slot |
| LocatorDir.LocatorDir.Upsert | lib/mesh/locator_dir.cpp:102-124 | in place, the specified state and answer |
| LocatorDir.LocatorDir.Lookup | lib/mesh/locator_dir.cpp:126-134 | in place, the specified state and locator |
| LocatorDir.LocatorDir.LookupFull | lib/mesh/locator_dir.cpp:136-149 | found exactly while lifetime remains, with the remaining seconds rounded down and at least one; otherwise an expired binding is freed and nothing else changes |
| LocatorDir.RemainingExact | lib/mesh/locator_dir.cpp:136-149 | what remains is the true time to the end of the lifetime within half the clock range of it |
| LocatorDir.LocatorDir.Remove | lib/mesh/locator_dir.cpp:151-156 | in place, the specified state and answer |
| CtrlBlock.BlockLiftedExactly | src/main.cpp:1293-1322 | a signed block stays for the minutes asked for, 30 when none and 120 at most, and the first sweep after that lifts it if and only if its victim had a timer or a slot was free when it arrived, whatever the console did before and to others since |
| CtrlBlock.BlockLifted | src/main.cpp:1293-1322 | without earlier console unblocks it is always lifted |
| CtrlBlock.InvKept | src/main.cpp:1293-1441 | every event but a console unblock keeps timed victims distinct and inside the blocked list |
| CtrlBlock.BlockTimed | src/main.cpp:1416-1426 | an applied block always gets its timer and disturbs no other |
| CtrlBlock.BlockTimedExactly | src/main.cpp:1416-1426 | in any well-formed state an applied block is timed exactly when its victim had a timer or a slot was free, and no other block or timer is disturbed |
| CtrlBlock.BlockRefused | src/main.cpp:1416-1424 | a block of the zero id, of the node itself or of a ninth victim changes nothing |
| CtrlBlock.UnblockExact | src/main.cpp:1432-1436 | a signed unblock lifts exactly its block and clears its timer |
| CtrlBlock.ConsoleExact | lib/mesh/router.cpp:11-28 | the console changes the list by exactly its victim and leaves the timers alone |
| CtrlBlock.ConsoleUnblockBreaks | src/main.cpp:2402-2410 | a run from boot, eight signed blocks and one console unblock, after which the next signed block is permanent if no sweep came in between: no later run of sweeps and of events about others lifts it |
| CtrlBlock.UntimedAfterConsole | src/main.cpp:2402-2410 | it does so whenever all timer slots are live |
| CtrlBlock.UntimedStays | src/main.cpp:1310-1322 | a block without a timer survives every run that does not unblock or renew it by name, whatever is swept |
| CtrlBlock.SweepSparesUntimed | src/main.cpp:1310-1322 | a sweep at any time leaves a block without a timer alone |
| CtrlBlock.SweepExact | src/main.cpp:1310-1322 | in any well-formed state, console unblocks or not, a sweep lifts a timed block when its time is up and not before |
| CtrlBlock.SlotExists | src/main.cpp:1296-1301 | while every timed victim is blocked there is a slot for the timer of any blocked victim |
| CtrlBlock.SetExact | src/main.cpp:1293-1302 | arming sets the timer exactly when there is a slot and changes no other timer |
| CtrlBlock.Rail.SetTimer | src/main.cpp:1293-1302 | in place, the existing timer is renewed or the first free slot taken |
| CtrlBlock.Rail.ClearTimer | src/main.cpp:1304-1307 | in place, every slot of the victim is freed |
| CtrlBlock.Rail.ApplyBlock | src/main.cpp:1416-1426 | router and timers go to the specified state, routes through the victim dropped, and the result says whether it applied |
| CtrlBlock.Rail.ApplyUnblock | src/main.cpp:1433-1436 | router and timers go to the specified state, routes untouched |
| CtrlBlock.Rail.SweepTimers | src/main.cpp:1310-1322 | router and timers go to the specified state, routes untouched |
| CtrlBlock.Rail.constructor | src/main.cpp:1288-1291 | an empty table beside an empty list satisfies the invariant |
| LinkArq.Conservation | lib/mesh/link_arq.cpp:11-67 | in every run accepted = acknowledged + given up + pending |
| LinkArq.RetryExact | lib/mesh/link_arq.cpp:43-61 | an unacknowledged frame is handed back unchanged once for each of its first `retries` due ticks and is still pending exactly when there were no more than that |
| LinkArq.RetryBounded | lib/mesh/link_arq.cpp:43-61 | in every run whatever, acknowledged or not and in any order of ticks, a frame is handed back at most as often as it has retries and always unchanged |
| LinkArq.GivenUpInTime | lib/mesh/link_arq.cpp:43-61 | after max_retries + 1 ticks spaced at least the timeout apart it has been acknowledged or given up, and unless acknowledged it was resent exactly max_retries times |
| LinkArq.PendingUnacked | lib/mesh/link_arq.cpp:32-41 | a frame still pending at the end of a run was not acknowledged in it |
| LinkArq.SpacedRounds | lib/mesh/link_arq.cpp:43-61 | any n spaced ticks contain at least n due ones, whatever other ticks there are |
| LinkArq.StepConserves | lib/mesh/link_arq.cpp:11-61 | each operation moves frames between the three counts |
| LinkArq.TrackMeaning | lib/mesh/link_arq.cpp:11-30 | a frame is taken if and only if it has at most 255 bytes and a slot is free; the first free one then holds it and nothing else changes |
| LinkArq.AckMeaning | lib/mesh/link_arq.cpp:32-41 | an acknowledgement counts if and only if some frame awaits it; the first such slot is freed and nothing else changes |
| LinkArq.TickMeaning | lib/mesh/link_arq.cpp:43-61 | a tick touches the elapsed slots only: the last retry frees the slot, an earlier one is spent and arms the timeout again |
| LinkArq.ResentMeaning | lib/mesh/link_arq.cpp:43-61 | handed back are the frames of the elapsed slots with retries left, in slot order |
| LinkArq.DueExact | lib/mesh/link_arq.cpp:48 | the wrapped comparison agrees with true time inside the half range |
| LinkArq.SeqDistinct | lib/mesh/link_arq.cpp:6-9 | sequence numbers fewer than 255 frames apart differ |
| LinkArq.LinkArq.TakeSeq | lib/mesh/link_arq.cpp:6-9 | the next number, never 0 |
| LinkArq.LinkArq.Track | lib/mesh/link_arq.cpp:11-30 | the first free slot holds the frame; refused exactly when too long or full |
| LinkArq.LinkArq.OnAck | lib/mesh/link_arq.cpp:32-41 | the first matching slot is freed and counted |
| LinkArq.LinkArq.TickAll | lib/mesh/link_arq.cpp:43-61 | the specified slots, the frames handed back in slot order and the number given up |
| LinkArq.LinkArq.PendingCount | lib/mesh/link_arq.cpp:63-67 | the number of used slots |
| Clock32.ReachedExact | lib/mesh/link_arq.cpp:48 | the signed 32-bit difference test agrees with true time exactly inside the half range |

## Left out

- Loop freedom and a feasibility condition for routes: the source states that it does not implement them; the hop ceiling and the bounded count-to-infinity are what is proved.
- A live neighbour behind every route: the source relaxes routes even when the neighbour table is full, so it is not claimed.
- Network.CountToInfinityBounded: runs shorter than one wrap of the 32-bit millisecond clock (49.7 days), because beyond it a stale stamp reads as fresh.
- Network.CostBounded: costs are reals; rounding of single-precision floats is not modelled.
- Policy.Converges: for ordered limits and band ends, steps of at least 1, and steps that do not leave int8 on the way; where they do the loop can move the wrong way, exactly as Policy.RaiseDirection and Policy.LowerDirection say.
- Policy: the conversion of a rounded margin to int8 is taken as wrapping; the Go language leaves a conversion out of range to the implementation.
- Engine.Controller.Tick: log lines, reasons and JSON output are not modelled; a confirm that could not be sent is recorded as an abandonment, since the engine forgets it.
- Engine.Controller.SetApply: the lock around it and Tick; each runs alone.
- LinkLoad.Loads: links are keyed by pairs of ids instead of strings, and ties between equal paths are broken as the loops fall, which map iteration order leaves open in the source.
- ConnFloor.Sort: an insertion sort stands for the library sort, which is not specified beyond the order.
- Slide.Ladder: the stored table of multiples of the base point is assumed to hold its odd multiples; that the curve formulas obey the group laws is not modelled.
- Eddsa.CheckEquation: the hash that yields h and the field arithmetic of decoding and encoding points; two points are compared as such instead of by their encodings.
- ModL.ModL: wiping of temporaries is not modelled, here and in SHA-512.
- Sha512.Context.CompressBlock: the six logical functions and the round constants are parameters.
- Session.Delivered: authentication is assumed only in the direction that opening inverts sealing; that a forgery fails to authenticate is not assumed, only that one which fails is refused (Session.OpensExactly).
- Session: receipts, the handshake and the time-based rekey trigger; they are not part of this model.
- AnnounceCodec: the identity signature appended to an announce.
- Sar: the DONE message, a fixed six-byte layout.
- LocatorDir: the message codec, `size`, `snapshot` and the pending-query table; theorems over runs assume fewer than 2^32 operations, beyond which the recency stamp wraps.
- LocatorDir.LocatorDir.LookupFull: at exactly 2^31 ms before expiry it drops a binding that a plain lookup keeps; agreement with the plain lookup is stated for every other instant.
- LinkArq: the acknowledged and given-up counters are unbounded instead of wrapping at 2^32.
- LinkArq.RetryExact: within the half range of the clock and for timeouts below it.
- CtrlBlock: the other command arms, acknowledgements and console printing.
- Radio, flash, console, telemetry, web pages, serial plumbing and bench tools: input and output around this core.
