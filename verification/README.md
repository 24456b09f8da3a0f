# Verified models of the gem5 configuration layer

This project models the algorithms that configure and drive a gem5 simulation with CXL
extensions: the mesh topology scripts together with the routing tables the Ruby network
derives from them, the interleaving of memory over home nodes and channels, the pairing of
home nodes with memory controllers, the binding of ports read from a configuration file, the
merging of checkpoints, the loops that take checkpoints and switch CPUs, and two places where
one script counts or numbers what another one builds. Everything is stated for all inputs.

How the parts build on each other:

* `ShortestPaths`, `Topology`: the links of a topology become a weight matrix, exact
  distances, and the candidate links of a routing table lookup.
* `MeshLayout`, `MeshRouting`, `MeshBuild`, `MeshScripts`, `NodeShares`, `CustomMesh`: the loops of the mesh
  scripts emit exactly the links of a layout; on it the lookup is column-first routing
  (`Mesh_XY`, `CustomMesh`) or west-first routing (`Mesh_westfirst`).
* `Network`, `MeshDeadlock`: a network of bounded first-in first-out channels as a state
  machine. Channels can be ranked so that routing only climbs; hence no reachable state is
  stuck, nothing is lost, and everything arrives.
* `Bits`, `Interleaving`, `AddressRanges`, `Remasking`, `Pairing`, `Reranging`, `AutoPairing`,
  `TargetShares`, `LineDealing`: ranges whose selector bits are parities of masked addresses, and how pairing
  controllers rewrites them.
* `BitPositions`, `ChannelAddress`, `ChannelOffsets`, `ChannelCells`: taking the interleaving bits out of an
  address and putting them back.
* `PortOrder`, `PortBinding`, `PortWitnesses`, `PortNames`; `Decimals`, `SectionNames`, `Checkpoints`;
  `SimulationControl`, `CpuSwitching`; `TesterTree`; `GpuWiring`: the remaining five subjects.
* `Options`, `Sets`, `Sorting`, `Arithmetic`: shared helpers.

Eleven promises of the code or its comments do not hold for all inputs. Each is kept as the
code has it and comes with the exact condition under which it holds and with an input on
which it fails:

* The tables find every route, and the network is free of deadlock, if and only if no two
  controllers are further apart than the weight 10000 that stands for "no link"
  (`RouteExists`, `DeadlockFreeExactly`, `PlainReach`; fails in `LongRowOutOfReach`).
* A port binding that passes the final count binds every connection if and only if no port is
  connected to itself (`BoundMeans`; fails in `SelfConnectionsHideAGap`).
* The sorted pass does not find every order; for lists that join ports in pairs it passes the
  final count if and only if some choice of listings works in sorted order (`CountDecides`,
  `BindPorts`; fails in `SortedPassMissesAnOrder`).
* Merged checkpoints have the recorded size, and their bytes are where the relocated addresses
  point, if and only if every image is as long as its page count says (`RangeSizeExactly`,
  `OffsetExactly`; fails in `ShortImageMisplaces`).
* Checkpoints are on schedule if and only if none of the drains before them takes time
  (`ScriptCheckpoints`; fails in `LateCheckpoint`).
* Switching CPUs, with a full stretch left at the start, stops by maxtick if and only if the
  drain of the last switch ends by then (`RepeatSwitch`; fails in `PassesMaxtick`).
* Every paired memory controller gets a share of memory if and only if no home node has more
  than 16 of them or there is one home node (`TargetsShareExactly`; fails for every larger
  fan-out, `UnusedTarget`).
* Paired controllers nest if and only if all sources have equally many targets; the checks do
  not ask for it when there are more caches than memories (`NestExactlyIfEqual`; fails in
  `UnevenSharesPass` and `UnevenSharesDoNotNest`).
* Home node slices are ranges the simulator takes if and only if the number of home nodes is a
  power of two of at most 256 (`HomeRangesConstruct`; fails in `ThreeHomeNodesRefused`).
* Adding the interleaving bits back undoes removing them if and only if no mask holds the first
  bit of a later one (`RoundTripsExactly`); re-masked home nodes violate this as soon as there
  are more than two (`SpreadRoundTrips`).
* The offset of an address in its range is unique if no two masks start with the same bit, and,
  when none starts with bit 0, only then (`RemovalInjectiveExactly`, `InjectiveUnique`). The
  masks that pairing gives to memory controllers have that property if and only if there is one
  controller to each home node, or one home node (`TargetsInjectiveExactly`; fails in
  `TwoAddressesOneCell`, where addresses 0 and 32 are one cell of one controller).

## Model

| member | source | states |
|---|---|---|
| `ShortestPaths.ShortestPath` | gem5/src/mem/ruby/network/Topology.cc:335-400 | the iterated in-place relaxation ends, for every non-negative matrix of any size, with the least cost of a walk between every two switches: no walk is cheaper and some walk has that cost |
| `ShortestPaths.PotentialIsDistance` | gem5/src/mem/ruby/network/Topology.cc:335-400 | any potential that no link descends faster than its weight and that every switch can descend at some link's weight is the distance: the certificate by which distances of a whole family of networks are known |
| `Topology.CollectLinks` | gem5/src/mem/ruby/network/Topology.cc:72-111 | each external link becomes two directed links, each internal link one, with controllers numbered as sources, then as sinks, then routers |
| `Topology.FillWeights` | gem5/src/mem/ruby/network/Topology.cc:117-183 | the weight matrix holds each link's weight, zero on the rest of the diagonal and 10000 elsewhere, and is as small as the links allow; it is refused exactly when two links join the same pair of switches |
| `Topology.LookupRoutingTable` | gem5/src/mem/ruby/network/garnet/RoutingUnit.cc:97-145 | the links offered are exactly those on a shortest way to the destination that have the least weight among these; nothing is offered exactly when there is none |
| `Topology.CreateLinks` | gem5/src/mem/ruby/network/Topology.cc:114-215 | the whole derivation: link list, weights and exact distances, refused exactly on a doubled link |
| `MeshScripts.MakeMesh` | configs-test/topologies/Mesh_XY.py:119-198 | the four loop nests emit, for every size, the k-th link of a closed-form enumeration of the mesh, with consecutive ids |
| `MeshScripts.MakeTopology` | configs-test/topologies/Mesh_XY.py:49-198 | accepted exactly when the rows divide the routers and all left-over controllers are DMA; then the links are those of the layout that deals controllers out in turn, and link ids are 0, 1, ... over both lists |
| `MeshScripts.AcceptsEvenOnly` | configs-test/topologies/Mesh_XY.py:49-198 | without DMA controllers, accepted if and only if the rows make a full grid and the routers share the controllers evenly |
| `MeshScripts.AcceptsAnyDma` | configs-test/topologies/Mesh_XY.py:49-198 | with DMA controllers only, accepted if and only if the rows make a full grid |
| `MeshScripts.ControllersOn` | configs-test/topologies/Mesh_XY.py:49-198 | every router has equally many controllers, but for router 0, which has all left-over ones too; the others are dealt out one each, round and round |
| `MeshBuild.ScriptsBuildLayout` | configs-test/topologies/Mesh_XY.py:119-198 | the emitted lists hold every link of the layout exactly once and nothing else |
| `MeshScripts.RouteTables` | gem5/src/mem/ruby/network/Topology.cc:114-215 | the topology never rejects the links of a mesh script, and what it computes are the tables of the layout |
| `MeshRouting.MeshDistance` | configs-test/topologies/Mesh_XY.py:122-196 | the computed distance between any switch and any controller is the weight of a column-and-row route, cut off at 10000 |
| `MeshRouting.EligibleIsProductive` | gem5/src/mem/ruby/network/Topology.cc:402-411 | a link is on a shortest way exactly when it brings the packet nearer and the destination is in reach |
| `MeshRouting.CandidateIsNextHop` | gem5/src/mem/ruby/network/garnet/RoutingUnit.cc:97-145 | the table lookup on the emitted links refines a rule on coordinates: exactly the least-weight productive neighbours, nothing when out of reach |
| `MeshRouting.XYRule` | configs-test/topologies/Mesh_XY.py:34-37 | with Mesh_XY weights there is exactly one next hop, and it corrects the column before the row |
| `MeshRouting.WestFirstRule` | configs-test/topologies/Mesh_westfirst.py:33-41 | with Mesh_westfirst weights the next hops are exactly: west while the destination is west, otherwise any link that brings the packet nearer |
| `MeshDeadlock.RouteExists` | gem5/src/mem/ruby/network/garnet/RoutingUnit.cc:133-136 | a router finds a route if and only if the destination is at most 10000 away |
| `MeshScripts.PlainReach` | configs-test/topologies/Mesh_XY.py:119-198 | with a controller on every router, all routes are found if and only if the weighted diagonal plus one is at most 10000 |
| `MeshScripts.ReachInNumbers` | configs-test/topologies/Mesh_westfirst.py:90-185 | in numbers: a grid with a controller on every router is in reach if and only if east * (columns - 1) + 2 * (rows - 1) is below 10000 |
| `MeshScripts.DiagonalIsLongest` | configs-test/topologies/Mesh_XY.py:119-198 | no two controllers are further apart than the weighted diagonal and their own links |
| `MeshDeadlock.NextHopIsNearer` | configs-test/topologies/Mesh_XY.py:122-196 | whatever the weights and however ties are broken, every hop leaves one hop less, and a packet only leaves at its own destination |
| `MeshDeadlock.RouteLength` | configs-test/topologies/Mesh_XY.py:122-196 | every way to the destination has exactly the Manhattan number of hops |
| `MeshDeadlock.RouteArrives` | configs-test/topologies/Mesh_XY.py:122-196 | from everywhere a packet can be there is a way that arrives |
| `MeshDeadlock.XYDependencyClimbs` | configs-test/topologies/Mesh_XY.py:34-37 | along every dependency between channels that XY routing allows the channel rank grows, leaf routers included |
| `MeshDeadlock.WestFirstDependencyClimbs` | configs-test/topologies/Mesh_westfirst.py:33-41 | the same for west-first routing: a packet that has left the west phase never turns west again |
| `MeshDeadlock.NoDependencyCycle` | configs-test/topologies/Mesh_westfirst.py:33-41 | in the computed tables no chain of channel dependencies, for whatever packets and tie choices, leads back to its start, on every mesh |
| `MeshDeadlock.MeshClimbs` | configs-test/topologies/Mesh_XY.py:34-37 | the network built from the computed tables has a ranking under which packets can always go on and always climb, for any placement, leaf routers and buffer sizes |
| `MeshDeadlock.MeshNeverDeadlocks` | configs-test/topologies/Mesh_XY.py:34-37 | every reachable state that holds a packet has an enabled move other than injecting, for every mesh size |
| `MeshDeadlock.MeshDeliversEverything` | configs-test/topologies/Mesh_XY.py:34-37 | once injection stops, every run is bounded, and where it stops every packet ever injected was handed, once, to the controller it was for |
| `MeshScripts.RoutedMesh` | configs-test/topologies/Mesh_XY.py:34-198 | end to end, from the script's arguments: unless the script refuses them, the emitted links give the tables of the layout, and no reachable state of the network is stuck, whatever the buffer sizes, if and only if all controllers are in reach of each other |
| `MeshDeadlock.DeadlockFreeExactly` | configs-test/topologies/Mesh_XY.py:34-37 | freedom from deadlock holds if and only if every controller is in reach of every other; out of reach, one injected packet is stuck at once |
| `MeshScripts.LongRowOutOfReach` | configs-test/topologies/Mesh_XY.py:119-198 | a row of 10001 routers is out of reach and not free of deadlock |
| `MeshScripts.LongestRowInReach` | gem5/src/mem/ruby/network/Topology.cc:47 | a row of 10000 routers is in reach and free of deadlock |
| `Network.StepKeepsInv` | configs-test/topologies/Mesh_XY.py:34-37 | every step keeps buffers within capacity, packets on channels where they are legal, and deliveries at the right controller |
| `Network.ReachableProgress` | configs-test/topologies/Mesh_XY.py:34-37 | in a network whose routing climbs a ranking, the highest-ranked busy channel can always advance |
| `Network.DrainingRun` | configs-test/topologies/Mesh_XY.py:34-37 | without injection a run is no longer than the work that was left, and where it cannot go on the network is empty |
| `Network.RunConserves` | configs-test/topologies/Mesh_XY.py:34-37 | along every run, what is buffered and what was handed over is exactly what there was plus what was injected |
| `Network.EverythingArrives` | configs-test/topologies/Mesh_XY.py:34-37 | boundedness, emptiness, conservation and right destinations together |
| `CustomMesh.Builder.constructor` | configs-test/topologies/CustomMesh.py:60-163 | the mesh alone is a valid build: router k has id k, the links are those of the layout, ids are exact |
| `CustomMesh.Builder.CreateRNFRouter` | configs-test/topologies/CustomMesh.py:169-198 | adds one leaf router and its two links, keeping the build valid |
| `CustomMesh.Builder.DistributeNodes` | configs-test/topologies/CustomMesh.py:200-256 | fails, changing nothing, exactly when the shares do not come out even or there is no router; otherwise every node faces the router it was dealt to, a request node through a leaf router of its own. On a list without repetition every router gets exactly its share, of consecutive nodes, or, without shares, the routers never differ by more than one node |
| `CustomMesh.LeafToItself` | configs-test/topologies/CustomMesh.py:217-221 | the leaf routers of two request nodes are different |
| `NodeShares.SharesAreEqual` | configs-test/topologies/CustomMesh.py:208-215 | with a number of nodes per router, every listed router has exactly that many, and its nodes are consecutive |
| `NodeShares.TurnsAreBalanced` | configs-test/topologies/CustomMesh.py:235-256 | without one, at no time has a router two nodes more than another, nor one listed earlier fewer |
| `CustomMesh.Builder.Tables` | configs-test/topologies/CustomMesh.py:200-256 | after any sequence of placements the tables of the layout are computed, and the network with its leaf routers is free of deadlock if and only if all controllers are in reach of each other |
| `Interleaving.Contains` | gem5/src/base/addr_range.hh:470-490 | the bit-by-bit membership test is equality of the selector, a number, with the match value |
| `Interleaving.MakeMasks` | gem5/src/python/m5/params.py:925-941 | the loop from the high bit down yields mask i with bit low + i, and the hash bit above it when hashing is on |
| `Interleaving.SteppedDealsEvenly` | configs-test/ruby/CHI_config.py:594-611 | if the masks' lowest bits climb one by one, every aligned run of 2^n lines goes to the 2^n channels one whole line each |
| `Interleaving.HashKeepsLinesWhole` | configs-test/common/MemConfig.py:60-63 | hashing keeps lines whole if and only if its bits start no lower than the interleaving bits |
| `AddressRanges.HomeNodes.CreateAddrRanges` | configs-test/ruby/CHI_config.py:595-611 | refused exactly for no home node or no line size; otherwise every home node has what was given to it last and other entries stay. No line is split between home nodes, and the recorded bit is the highest of those that decide. For a power of two of different home nodes, every address of a memory range and no other has exactly one home node, and every aligned run of as many lines goes to them one whole line each, before and after the masks are spread |
| `AddressRanges.NumaBitExactly` | configs-test/ruby/CHI_config.py:597-599 | the bits that decide about the home node are those from the line number up to the highest interleaving bit, and all of them |
| `AddressRanges.HomeRangesConstruct` | configs-test/ruby/CHI_config.py:594-611 | the slices are ranges the simulator takes if and only if there are 2^b home nodes, at most 256 |
| `AddressRanges.ThreeHomeNodesRefused` | configs-test/ruby/CHI_config.py:594-611 | with three home nodes the third one's slice is not such a range |
| `AddressRanges.HomeNodeUnique` | configs-test/ruby/CHI_config.py:594-611 | every address of a memory range has exactly one home node |
| `AddressRanges.IndexAboveInterleaving` | configs-test/ruby/CHI_config.py:620-627 | taking cache index bits from above the highest interleaving bit loses nothing: two addresses that one home node holds and that agree in all bits from there up are in the same line |
| `AddressRanges.MemIntfMasks` | configs-test/common/MemConfig.py:53-63 | the high bits computed for a memory interface give masks from the low interleaving bit up, hashed exactly when a low hash bit is given |
| `AddressRanges.ChannelUnique` | configs-test/common/MemConfig.py:103-110 | every address belongs to exactly one of the 2^bits channels, with hashing on or off |
| `AddressRanges.ChannelsBalanced` | configs-test/common/MemConfig.py:53-63 | with hash bits at or above the interleaving bits, every aligned window of 2^bits chunks gives each channel exactly one whole chunk |
| `Pairing.CheckPairing` | configs-test/topologies/CustomMesh.py:402-432 | the checks pass exactly on tables with equal shares (or one memory each) that leave out no memory; then each memory lists, once, exactly the caches that list it |
| `Pairing.EachMemoryOnce` | configs-test/topologies/CustomMesh.py:413-432 | the checks suffice: every memory stands exactly once in exactly one cache's list |
| `Pairing.EachCacheOnce` | configs-test/topologies/CustomMesh.py:413-432 | with fewer memories than caches, every cache stands exactly once in exactly one memory's list |
| `Reranging.Renumber` | configs-test/topologies/CustomMesh.py:463-471 | in place: match values run on from source to source, nothing else changes |
| `Reranging.Remask` | configs-test/topologies/CustomMesh.py:473-505 | in place: sources at the memories' start get spread masks, their targets those above their own low masks, other sources are skipped, nothing else changes; it stops exactly when a target of such a source starts elsewhere |
| `Reranging.Rerange` | configs-test/topologies/CustomMesh.py:445-505 | both rewritings together, sources in the order of their match values; it stops exactly when some source at that start has a target elsewhere |
| `AutoPairing.AutoPair` | configs-test/topologies/CustomMesh.py:395-510 | the whole pairing: rejected, with nothing changed, exactly when a check of the table fails or two memories start at different addresses; stopped exactly when memories lead and a cache starts elsewhere; otherwise all match values and masks are those of the rewriting, with equal shares everything nests, nesting holds only with equal shares, and every address has exactly one controller on either side, paired with each other |
| `AutoPairing.NestExactlyIfEqual` | configs-test/topologies/CustomMesh.py:463-497 | with sources numbered from zero and 2^f times as many targets that all own some address, every target lies inside its source if and only if all sources have equally many |
| `AutoPairing.EqualSharesNest` | configs-test/topologies/CustomMesh.py:463-497 | with equal shares of 2^f everything nests, whether or not a target owns an address |
| `AutoPairing.OwnedOnce` | configs-test/topologies/CustomMesh.py:445-497 | after the rewriting every address of the range is held by exactly one source and exactly one target, and the target is one of that source's |
| `Reranging.NumberingSorts` | configs-test/topologies/CustomMesh.py:459-461 | match values that number the sources from zero sort each source to its own number |
| `Reranging.NestsExactly` | configs-test/topologies/CustomMesh.py:463-497 | a target lies inside the source with match value k if and only if its own match value is one of the 2^f from k * 2^f on |
| `AutoPairing.UnevenSharesPass` | configs-test/topologies/CustomMesh.py:413-432 | a table with uneven shares passes the checks, with memory 0 listing three caches and memory 1 one |
| `AutoPairing.UnevenSharesDoNotNest` | configs-test/topologies/CustomMesh.py:463-497 | and however the rewriting of its controllers goes, some cache does not lie inside the memory it is paired with |
| `Remasking.RemaskedBalance` | configs-test/topologies/CustomMesh.py:479-484 | spreading every mask over the four bits above keeps the balance: each aligned run of lines still goes to the home nodes one line each |
| `Remasking.TargetSplitsSource` | configs-test/topologies/CustomMesh.py:485-497 | a target owns exactly those addresses of its source whose low selector is the target's place in the list |
| `Remasking.TargetsUsedExactly` | configs-test/topologies/CustomMesh.py:479-497 | every target owns some address if and only if no source has more than 2^4 targets, or there is one source |
| `TargetShares.TargetsShareExactly` | configs-test/topologies/CustomMesh.py:463-497 | of the target ranges as the rewriting leaves them, over an aligned range that all masks fit in: every one holds some address if and only if no source has more than 2^4 targets, or there is one source |
| `TargetShares.UnusedTarget` | configs-test/topologies/CustomMesh.py:463-497 | otherwise the first target of the second source holds none |
| `Remasking.LargeFanOutUnused` | configs-test/topologies/CustomMesh.py:479-497 | with 2^f targets to a source, f at least 5, target number 2^f owns no address |
| `ChannelAddress.RemoveIntlvBits` | gem5/src/base/addr_range.hh:516-545 | for all masks: one removal per mask, lowest start first, each at its start less the removals before it; if no two masks start with the same bit, every other bit of the address is kept, moved down past the removed bits below it |
| `ChannelAddress.AddIntlvBits` | gem5/src/base/addr_range.hh:555-597 | the interleaving bits are opened, lowest first, and then set one after the other, each against the rest of its mask; if no two masks start with the same bit, every bit of the given address moves up past the interleaving bits below it |
| `ChannelAddress.AddedBackSelects` | gem5/src/base/addr_range.hh:588-595 | if no mask holds the first bit of a later one, the address put back belongs to the channel asked for |
| `ChannelAddress.RoundTripsExactly` | gem5/src/base/addr_range.hh:549-597 | adding back what was removed gives the same address, for all addresses, if and only if no mask holds the first bit of a later one |
| `ChannelAddress.IntlvRoundTrips` | gem5/src/base/addr_range.hh:549-597 | for ranges made from interleaving bits, hashed with bits above or below: if and only if no bit is both, or all are |
| `ChannelAddress.SpreadRoundTrips` | configs-test/topologies/CustomMesh.py:479-484 | for re-masked home nodes: if and only if there are at most two |
| `ChannelOffsets.GetOffset` | gem5/src/base/addr_range.hh:598-622 | the address without its interleaving bits, counted modulo 2^64 from that of the start; the largest address for what lies outside the range |
| `ChannelOffsets.RemovalInjectiveExactly` | gem5/src/base/addr_range.hh:489-545 | two addresses of one channel with the same remainder are equal if no two masks start with the same bit; and, when no mask starts with bit 0, only then |
| `ChannelOffsets.BitZeroDoesNoHarm` | gem5/src/base/addr_range.hh:534-543 | for masks 1 and 3, which both start with bit 0, remainders are nevertheless unique |
| `ChannelOffsets.InjectiveUnique` | gem5/src/base/addr_range.hh:598-622 | then offsets within a range are unique, wherever the range starts and ends |
| `ChannelOffsets.TargetsInjectiveExactly` | configs-test/topologies/CustomMesh.py:486-497 | for the masks of re-masked targets, 2^f to each of 2^n sources, interleaved from any bit but 0: if and only if f is 0 or n is 0 |
| `ChannelCells.OneAddressEach` | gem5/src/base/addr_range.hh:489-545 | if no two masks start with the same bit, every channel and every remainder belong to exactly one address |
| `ChannelCells.OffsetsExactly` | gem5/src/base/addr_range.hh:598-622 | then, in an aligned range, the start has offset 0 and the offsets of a channel are exactly the numbers from 0 up to its size, each once |
| `ChannelOffsets.TwoAddressesOneCell` | gem5/src/mem/mem_interface.hh:238 | with lines of 64 bytes and two controllers to each of two home nodes, addresses 0 and 32 belong to the same controller and have the same offset |
| `PortOrder.ConnectionsOrdered` | configs-test/example/read_config.py:166-170 | the order by which connections are sorted is total |
| `PortOrder.StringsByFirstDifference` | configs-test/example/read_config.py:166-170 | names compare as in a dictionary: by the first character that differs, a name before its continuations |
| `PortOrder.LeqExactly` | configs-test/example/read_config.py:166-170 | connections compare by the near end and then the far end, ends by object, port and index, the first difference deciding |
| `PortBinding.BindPorts` | configs-test/example/read_config.py:331-377 | the counters and the single pass over the sorted list make exactly what the abstract pass makes; the outcome is decided by the count, or by a far end that is never a near end; a list that joins ports in pairs is bound if and only if some choice of listings works in sorted order |
| `PortBinding.GreedyInOrder` | configs-test/example/read_config.py:352-375 | each connection is made when both its ends are next in line on their ports |
| `PortBinding.TurnsTaken` | configs-test/example/read_config.py:352-375 | an index below a port's counter is an index already bound, and conversely: the k-th binding of a port is the one with index k, without gaps |
| `PortBinding.MadeOnce` | configs-test/example/read_config.py:352-375 | no connection is made twice, nor in both orientations |
| `PortBinding.BoundMeans` | configs-test/example/read_config.py:331-377 | a binding that passes the count makes every connection, in exactly one orientation, if and only if no port is connected to itself |
| `PortWitnesses.SelfConnectionsHideAGap` | configs-test/example/read_config.py:373-377 | a sorted list with near ends numbered as they are gathered, with self-connections, that passes the count although a connection is left unmade |
| `PortBinding.PassIsBest` | configs-test/example/read_config.py:352-375 | the pass makes every connection if and only if some choice of listings, taken in sorted order, respects every port's turns |
| `PortBinding.CountDecides` | configs-test/example/read_config.py:352-375 | for symmetric lists without duplicates or self-connections, with one peer to a port: the connections made are half of those listed if and only if some choice of listings, taken in sorted order, makes them all |
| `PortWitnesses.SortedPassMissesAnOrder` | configs-test/example/read_config.py:352-375 | the sorted list of three connections that can be made in some order, of which the pass makes only two |
| `PortNames.RoundTripExactly` | configs-test/example/read_config.py:152-164 | parsing a printed port gives it back if and only if its port name is not empty and free of '.' and '[', and its object name has no line break |
| `PortNames.ParsesExactly` | configs-test/example/read_config.py:152-161 | a text is read as a port if and only if some dot on its first line has a name behind it |
| `PortNames.IndexExactly` | configs-test/example/read_config.py:152-161 | what stands behind the port name is the index if it starts with digits in brackets, and counts as 0 otherwise |
| `PortNames.NoBracketNoIndex` | configs-test/example/read_config.py:152-161 | object.port without a bracket is read with index 0 |
| `Decimals.DecimalRoundTrip` | configs-test/example/read_config.py:152-164 | reading a printed index gives the index |
| `SectionNames.TaggedUnique` | gem5/util/checkpoint_aggregator.py:67-70 | from a name with a tag after every "cpu" the name and the tag can be read off again |
| `SectionNames.RenameUnique` | gem5/util/checkpoint_aggregator.py:59-70 | renaming is injective over checkpoint number and section name |
| `SectionNames.RenameShowsNumber` | gem5/util/checkpoint_aggregator.py:69 | the digits behind the first "cpu" of a renamed section read as the number of its checkpoint, with the same width for all |
| `Checkpoints.ReadPages` | gem5/util/checkpoint_aggregator.py:107-114 | page by page, what is copied is the image up to its page count, or all of it if it is shorter |
| `Checkpoints.MergeSections` | gem5/util/checkpoint_aggregator.py:67-94 | the sections one checkpoint contributes, renamed and relocated, and the latest tick so far |
| `Checkpoints.Pad` | gem5/util/checkpoint_aggregator.py:123-131 | pads to the fewest pages that hold the memory size |
| `Checkpoints.Aggregate` | gem5/util/checkpoint_aggregator.py:44-147 | the merged sections, memory and latest tick; read off the file: one memory store section with a whole number of pages as its size, the least that covers all pages and the memory asked for; the sum of the page counts, the number of checkpoints and the latest tick; every section about a CPU under its new name with addresses moved and program number set; the other sections of the last checkpoint unchanged; and the memory behind the images filled with the character 0 |
| `Checkpoints.OffsetExactly` | gem5/util/checkpoint_aggregator.py:99-114 | a checkpoint's bytes start where its addresses were moved to if and only if every image before it was full, and lower otherwise |
| `Checkpoints.RangeSizeExactly` | gem5/util/checkpoint_aggregator.py:127-140 | the number that the merged file gives as range_size is the length of the memory written if and only if every image is as long as its page count says |
| `Checkpoints.FdMapExactly` | gem5/util/checkpoint_aggregator.py:81-82 | a program number is set exactly in sections whose name ends in workload, one character and FdMap256 |
| `Checkpoints.ByteRelocated` | gem5/util/checkpoint_aggregator.py:73-114 | with full images every byte is found at its address plus the relocation |
| `Checkpoints.PagesApart` | gem5/util/checkpoint_aggregator.py:73-101 | relocated regions of different checkpoints never overlap |
| `Checkpoints.MergedNamesDistinct` | gem5/util/checkpoint_aggregator.py:67-145 | no two sections of the merged file have the same name |
| `Checkpoints.AddressesStillWork` | gem5/util/checkpoint_aggregator.py:67-114 | with full images, the merged file has for every page-table entry of every checkpoint one under the new name, behind which the merged memory holds the same bytes |
| `Checkpoints.ShortImageMisplaces` | gem5/util/checkpoint_aggregator.py:99-114 | two complete checkpoints, the first with a short image, after which the page-table entry of the second points past the merged memory while its byte is the first there |
| `SimulationControl.Simulator.SkipCheckpoints` | configs-test/common/Simulation.py:254-258 | after a checkpoint exit before the wanted tick: all requests before the last one end with checkpoint exits, the last one does not, and its answer is the result; past the wanted tick the next request is refused |
| `SimulationControl.ScriptCheckpoints` | configs-test/common/Simulation.py:246-283 | for every simulator behaviour: the first checkpoint is written if and only if its tick has not passed and the first answer that is no checkpoint exit is the limit; a further one if and only if it is wanted and due by maxtick, the period before it ran to its end, and its own does so or is interrupted only by checkpoint exits before its tick. Checkpoint k is written at when + k * period plus exactly the drains so far, the last one possibly with its own drain only; all are on schedule if and only if none of these drains takes time. An uninterrupted run writes all of them up to maxtick or the maximum, and then runs on to maxtick |
| `SimulationControl.LateCheckpoint` | configs-test/common/Simulation.py:246-283 | a drain of one tick makes the checkpoint due at 10 one of tick 11 |
| `SimulationControl.SkippedExit` | configs-test/common/Simulation.py:252-262 | with a checkpoint exit after 3 ticks and the limit after that, the checkpoint due at 10 is written at 10 |
| `SimulationControl.DueAt` | configs-test/common/Simulation.py:261-280 | the k-th due tick is when + k * period |
| `CpuSwitching.SwitchCpus` | gem5/src/python/m5/simulate.py:351-429 | rejected exactly when the list is empty, an old CPU is inactive or a new one active; aborted exactly when a CPU is named twice; otherwise the old ones are out and the new ones in, all others as before |
| `CpuSwitching.HandedBack` | configs-test/common/Simulation.py:463-467 | handing over makes the swapped list acceptable, and handing that over restores the first state |
| `CpuSwitching.RepeatSwitch` | configs-test/common/Simulation.py:453-471 | for every simulator behaviour the loop ends, no switch is ever rejected, and after every switch the two CPUs of each pair have taken turns; no tick beyond maxtick is asked for if and only if a full stretch was left at the start; then one was left before every switch, and time passes maxtick if and only if the last switch, with all stretches and drains up to it, ends beyond it; an uninterrupted run ends at maxtick, or with its last switch when that is later |
| `CpuSwitching.OneOfEachPair` | configs-test/common/Simulation.py:463-467 | taking turns means that exactly one CPU of each pair is active: the first after an even number of switches, the second after an odd one |
| `CpuSwitching.PassesMaxtick` | configs-test/common/Simulation.py:453-471 | from tick 0, with stretches of 10 ticks, drains of 5 and maxtick 10, the run ends beyond tick 10 |
| `TesterTree.NumTesters` | configs-test/example/memtest.py:150-161 | the running multiplier computes the sum over levels of testers times the product of cache counts |
| `TesterTree.ClosedFormIsTree` | configs-test/example/memtest.py:150-161 | that sum is the number of testers of the recursive tree |
| `TesterTree.Builder.constructor` | configs-test/example/memtest.py:276-351 | the built tree has as many testers as were counted, and level k has exactly the subsystems 0 to the product of the cache counts on its memory side |
| `TesterTree.Builder.MakeCacheLevel` | configs-test/example/memtest.py:280-347 | a subtree adds to every level the product of the cache counts above it, with fresh, consecutive indices, and its own testers |
| `GpuWiring.CreateSequencers` | configs-test/ruby/GPU_VIPER.py:991-1092 | the order in which all sequencers stand in the list |
| `GpuWiring.WireShared` | configs-test/example/apu_se.py:874-891 | the running index moves on exactly at the first unit of each group and ends behind the last shared cache |
| `GpuWiring.WireTokens` | configs-test/example/apu_se.py:854-862 | the search for coalescers gives token port i to compute unit i |
| `GpuWiring.Wire` | configs-test/example/apu_se.py:816-908 | for all counts: CPU i gets its own one of the two sequencers of its pair, unit i coalescer i for memory and tokens and the instruction and scalar caches of its group, command processor i its own two sequencers, no index out of range |

## Left out

- CXL devices, PCIe links, root complexes and coherence protocols: only their parameters appear in the configuration scripts.
- Virtual channels, flits, credits and timing of the network: a packet is one unit, a link one bounded queue, and a controller can always take a packet that has arrived for it.
- Topology.FillWeights: one virtual network, which every link carries; negative link weights.
- Topology.CreateLinks: one virtual network; latencies and intermediate switch counts, which routing does not read.
- Topology.CollectLinks: controllers are numbered in the order of their links instead of by machine type.
- CustomMesh.Builder.DistributeNodes: the listed routers exist, and request nodes are not placed behind the leaf router of another request node; link latencies do not matter since the tables use weights.
- CustomMesh.Builder.CreateRNFRouter: a leaf router hangs off a router of the mesh, not off another leaf router.
- Reranging.Rerange: one range per controller; the copies that memory interfaces keep of their controller's range are not modelled. Its requirement that no controller stands twice is what the checks before it establish (`AutoPair`).
- Reranging.Remask: one range per controller. When it stops, nothing is said of the ranges, because the script ends there.
- AutoPairing.AutoPair: one range per controller; no two controllers share one range object, so the two arrays are different.
- ChannelAddress.RemoveIntlvBits: addresses are unbounded.
- ChannelAddress.AddIntlvBits: masks are not zero, since the source would shift by 64 bits; addresses are unbounded, while the source builds the bit it clears as a 32-bit value.
- ChannelAddress.RoundTripsExactly: masks are not zero.
- ChannelOffsets.RemovalInjectiveExactly: masks are not zero; when a mask starts with bit 0, only that different starts suffice is stated, because equal ones can do no harm there (`BitZeroDoesNoHarm`).
- AddressRanges.HomeNodes.CreateAddrRanges: the logarithm is taken as exact rounding down.
- The loops of config_mem over several memory ranges and over DRAM and NVM in turn: they repeat the modelled step.
- PortBinding.BindPorts: the order is the one `__cmp__` defines; Python 3 no longer calls it. Reading the lists from a file and connecting the objects are not modelled.
- PortNames.RoundTripExactly: decimal digits are the ten ASCII ones.
- Checkpoints.Aggregate: files, compression and the configuration parser are sequences and maps; writing text to files opened for bytes is taken to work; a page count is not negative, numbers in the sections are numbers, and the last checkpoint has the memory store section, as the script demands without checking.
- SimulationControl.ScriptCheckpoints: the simulator exits on checkpoint instructions only finitely often, and the period is not negative. The instruction-based branch, benchmark and SimPoint checkpoints are left out as easier.
- CpuSwitching.SwitchCpus: the checks for take-over support and for a common memory mode.
- TesterTree.Builder.constructor: cache and tester counts are not negative; the connections between caches and crossbars are not modelled.
- GpuWiring.CreateSequencers: message buffers, clusters and the registration of CPUs and caches.
- MeshDirCorners_XY: its mesh is that of Mesh_XY.
- Option parsing, object attributes, benchmark tables, file system images and build tools.
