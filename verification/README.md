# Verified models of the network labs

Dafny models of the protocol code of a set of networking labs, with proofs. Each module states one
component on values (functions, state machines), follows the code with classes, arrays and loops where
the code updates things in place, and proves the code against the statement. `dafny verify dfyconfig.toml`
checks everything.

## What is modelled

**Spanning tree** (`Stp*.dfy`). `StpSwitch` is one switch: an array of ports holding priority vectors, the two
loops of the state update, the BPDU handler and the hello timer. `StpNetwork` puts any number of switches with
distinct ids and any point-to-point links (parallel links and self-links included) into a transition system whose
steps deliver any BPDU in flight, fire a hello timer, duplicate or lose a BPDU. `StpSafety` holds what is true in
every reachable state, `StpSettling` the bound on accepted BPDUs, `StpConvergence` the spanning tree that a
lossless network ends in, `StpTermination` that every delivery schedule gets there, and `StpLiveness` that every
fair endless run does and that the tree then stays. Each switch handles one event at a time, as the code does under
its lock. `StpAnswers` says what each step puts in flight and what its receiver learns, and `StpParents` which port,
parent and designated end are chosen, in the fields compared. The set `fired` (who has fired hello) exists for the statements only.

**Link-state routing** (`Mospf*.dfy`, `Walks.dfy`). `MospfSpf` is the array Dijkstra and the walk along `prev`;
`MospfRouter` is a router with its database, neighbour lists and table; `MospfRoutes` says which routes get
installed. `MospfFlooding` floods LSUs between routers on point-to-point links and shared segments, with 16-bit
sequence numbers and both times to live, and `MospfSettling` proves that it ends. `MospfForwarding` follows packets
hop by hop, and `MospfDelivery` shows that settled flooding gives it what it needs. `MospfNetwork` adds the routing
tables, computed by the steps that store an LSU, and joins the two: once flooding has settled, packets arrive.
`Bits` and `MospfPrefix` say which addresses a prefix covers, and `MospfReach` that a settled network takes a packet
from any router to any address of any of its prefixes. The
counts `number`, `held` and `num` of the flooding model (how many LSUs a router has sent) and the sets `since` and
`computed` exist for the statements only.

**HTTPS server** (`Https*.dfy`). `HttpsRange` selects byte ranges with saturating arithmetic. `HttpsText` gives the
request grammar, `HttpsGrammar` proves that parsing is the inverse of writing a request down, and `HttpsRequest`
is the parser that cuts the header in place with NULs. `HttpsReply` says what is answered to a stream of bytes,
`HttpsClient` what a client reads in that answer by the grammar, and `HttpsServer` is the connection driven by arbitrary results of its system calls. What the client sends, the
files and the results of the calls are parameters; a call beyond the end of a schedule is one that would block, and
a `pread` of a regular file never does. Interrupted calls are retried at once without TLS and wait with it.

**Tables and checksum.** `ArpCache` is the pending-packet cache: a log of what leaves it shows that nothing is lost,
doubled or reordered, and `ArpRuns` follows requests through runs that mix packets, insertions and sweeps.
`ArpFates` says how packets leave in such runs: with which MAC, or refused.
`MacTable` is the learning switch's hash table, proved to be a map with ageing. `Checksum` is the Internet checksum
of RFC 1071 with its 32-bit accumulator.

## Where code and comments differ

- `arpcache.c` says that packets are refused after the ARP request was sent five times; the code sends six (the first
  when the packet arrives, then five retries), and `ArpRuns.RefusedAfterSix` states six.
- A range whose bounds are in the wrong order should be ignored; with both bounds of at least UINTMAX_MAX the code
  cannot see the order any more and refuses it. `HttpsRange.SaturationHarmless` gives the exact condition, and
  `HttpsRange.SaturationCanMatter` a header text.
- Section 14.1.2 of RFC 9110 calls a suffix range of non-zero length satisfiable; the code refuses it for an empty
  file, and so does the model.

## Model

| member | source | states |
|---|---|---|
| StpSwitch.Timer.Start | Sept24/04-stp/stp_timer.c:36-40 | the timer is armed with the given time |
| StpSwitch.Timer.Stop | Sept24/04-stp/stp_timer.c:42-45 | the timer is disarmed, its time kept |
| StpSwitch.Timer.Check | Sept24/04-stp/stp_timer.c:47-56 | true exactly when an armed timer has reached its timeout, which also disarms it |
| StpSwitch.Switch.TimerRunOnce | Sept24/04-stp/stp_timer.c:58-70 | the hello handler runs exactly when the armed timer expired; announces on every designated port and re-arms; no other state changes |
| StpSwitch.Switch.constructor | Sept24/04-stp/stp.c:313-348 | a new switch believes it is root, every port is designated and stores the local vector, the hello timer runs |
| StpSwitch.Switch.IsRoot | Sept24/04-stp/stp.c:23-26 | true exactly when the believed root is the switch itself |
| StpSwitch.Switch.SetDesignated | Sept24/04-stp/stp.c:194-201 | one port stores the local vector, the others are untouched |
| StpSwitch.Switch.ElectRoot | Sept24/04-stp/stp.c:205-230 | the first loop leaves the switch with the elected root port, root and cost of the specification, ports untouched; StpParents says in stored fields which port that is |
| StpSwitch.Switch.RefreshPorts | Sept24/04-stp/stp.c:232-242 | the second loop makes exactly those ports designated that should be, and only those change |
| StpSwitch.Switch.UpdateState | Sept24/04-stp/stp.c:203-243 | the two loops compute exactly the elected root port, root, cost and refreshed ports of the specification |
| StpSwitch.Switch.PortSendConfig | Sept24/04-stp/stp.c:68-93 | the BPDU carries root, cost, switch and port id; nothing is sent by a switch that knows no root |
| StpSwitch.Switch.SendConfig | Sept24/04-stp/stp.c:95-103 | one BPDU per designated port, in port order, and none on the others |
| StpSwitch.Switch.HelloTimeout | Sept24/04-stp/stp.c:105-112 | announces on every designated port and re-arms the hello timer |
| StpSwitch.Switch.HandleConfig | Sept24/04-stp/stp.c:245-268 | whole new state and BPDUs sent: store, re-elect, stop hello and announce if better; answer from a designated port otherwise. StpAnswers says over the network what is sent |
| StpSwitch.VectorOrder | Sept24/04-stp/stp.c:174-181 | the comparison of vectors is a strict total order |
| StpSwitch.ElectIsBest | Sept24/04-stp/stp.c:183-217 | the elected root port is a candidate that no other candidate precedes in the order of the code; none is elected exactly if there is none (StpParents.RootPortIsLeast gives the order in stored fields) |
| StpSwitch.UpdateAtLeast | Sept24/04-stp/stp.c:206-230 | after an update root and cost are at least as good as over any candidate port |
| StpSwitch.UpdateKeeps | Sept24/04-stp/stp.c:203-243 | after an update each port is designated with the local vector or holds a strictly better one, and the root port is the best candidate |
| StpSwitch.AcceptImproves | Sept24/04-stp/stp.c:245-263 | accepting a BPDU never worsens the switch's (root, cost) |
| StpSwitch.AcceptImprovesPort | Sept24/04-stp/stp.c:245-263 | accepting a BPDU never worsens what any port stores |
| StpSwitch.AcceptKeeps | Sept24/04-stp/stp.c:245-263 | accepting a BPDU re-establishes the whole per-switch invariant, hello timer included |
| StpSwitch.RootBeliefs | Sept24/04-stp/stp.c:203-268 | no root port, believing to be root and hello timer armed are one condition; the root port is never designated |
| StpSwitch.InitialInv | Sept24/04-stp/stp.c:313-348 | a new switch satisfies the per-switch invariant |
| StpNetwork.StartInv | Sept24/04-stp/stp.c:313-348 | the network of new switches satisfies the network invariant |
| StpNetwork.StepImproves | Sept24/04-stp/stp.c:245-263 | no step of the network (delivery in any order, hello, duplication, loss) worsens any switch's (root, cost) |
| StpNetwork.StepKeepsInv | Sept24/04-stp/stp.c:245-268 | every such step keeps the network invariant |
| StpNetwork.RunKeepsInv | Sept24/04-stp/stp.c:245-268 | so does every run |
| StpNetwork.RealIsShort | Sept24/04-stp/stp.c:183-230 | a claim witnessed by a simple path costs less than the number of switches, and 0 only at the root itself |
| StpSafety.SwitchesConsistent | Sept24/04-stp/stp.c:203-268 | the per-switch invariant holds in every reachable state of every network |
| StpSafety.ClaimsAreReal | Sept24/04-stp/stp.c:183-230 | every (root, cost) of a switch, port or BPDU in flight is realised by a simple path of exactly that many hops; the additions cannot overflow |
| StpSafety.ParentDescends | Sept24/04-stp/stp.c:206-243 | from a switch through its root port to the designated switch there, (root, cost) strictly falls |
| StpSafety.RootPointersNeverLoop | Sept24/04-stp/stp.c:206-243 | no chain of root pointers closes, in any reachable state, before or after convergence |
| StpSafety.NeverBlockedFromBothSides | Sept24/04-stp/stp.c:232-268 | at least one end of every link is designated, in every reachable state |
| StpAnswers.WorseIsAnswered | Sept24/04-stp/stp.c:264-267 | a BPDU that is not better than what its receiving end stores changes no switch; from a designated end exactly one BPDU goes into flight, that end's own vector to the far end, from another end none |
| StpAnswers.BetterIsAnnounced | Sept24/04-stp/stp.c:249-263 | a better BPDU puts in flight exactly the new vectors of the receiver's designated linked ports |
| StpAnswers.HelloAnnounces | Sept24/04-stp/stp.c:95-112 | a hello puts in flight exactly the vectors of the sender's designated linked ports |
| StpAnswers.DeliveryTeaches | Sept24/04-stp/stp.c:245-263 | the receiver of any BPDU stores at least its vector from then on, and believes at least as good a root and cost as over that port |
| StpAnswers.AnswerTeaches | Sept24/04-stp/stp.c:264-267 | after the answer is delivered in turn, the far end stores at least what the answering end announces |
| StpParents.PortIdParts | Sept24/04-stp/stp.c:340-340 | port ids are ordered as the ports are, with priority 128 in the high byte |
| StpParents.RootPortIsLeast | Sept24/04-stp/stp.c:183-230 | the root port offers the least root at the least cost; among ports offering as much its far switch id is least, then its far port id, then its own index |
| StpParents.ElectedIsLeast | Sept24/04-stp/stp.c:183-230 | conversely, a port that is least in that order is elected |
| StpParents.ParentIsLeast | Sept24/04-stp/stp.c:183-230 | in a settled network the parent of a switch is the neighbour with the smallest id among those one hop closer to the root, reached over its smallest port and then the own smallest port |
| StpParents.DesignatedEnd | Sept24/04-stp/stp.c:232-242 | in a settled network an end of a link is designated exactly if it is nearer to the root, or as near with the smaller switch id, or at the same switch with the smaller port |
| StpSettling.AcceptanceLowersMeasure | Sept24/04-stp/stp.c:245-263 | each accepted BPDU strictly lowers a natural number summed over all ports, and no step raises it |
| StpSettling.AcceptancesLowerMeasure | Sept24/04-stp/stp.c:245-263 | acceptances of a run plus the final measure are at most the initial measure |
| StpSettling.AcceptancesBounded | Sept24/04-stp/stp.c:174-263 | with N switches and P ports no run accepts more than P * 2 * N * N BPDUs |
| StpConvergence.QuiescentShortestPaths | Sept24/04-stp/stp.c:203-268 | once lossless channels are empty, all agree on the smallest id and every cost is the hop distance to it |
| StpConvergence.NoCycle | Sept24/04-stp/stp.c:203-268 | the links that forward at both ends contain no cycle |
| StpConvergence.TreeSize | Sept24/04-stp/stp.c:203-268 | they are one fewer than the switches |
| StpConvergence.SettledSpans | Sept24/04-stp/stp.c:203-268 | one designated end per link; forwarding links are exactly the root links, reach every switch at its cost and form a tree |
| StpConvergence.Converges | Sept24/04-stp/stp.c:203-268 | in every losslessly reachable quiescent state: shortest-path spanning tree rooted at the smallest switch id |
| StpTermination.AnswersEnd | Sept24/04-stp/stp.c:264-267 | two designated ports never keep answering each other |
| StpTermination.RejectionLowersWeights | Sept24/04-stp/stp.c:264-267 | a delivery that is not accepted shortens the chains of answers |
| StpTermination.EveryScheduleConverges | Sept24/04-stp/stp.c:203-268 | every schedule of deliveries reaches, after finitely many, the quiescent spanning tree |
| StpTermination.ConvergenceIsReached | Sept24/04-stp/stp.c:105-268 | every connected network has a lossless run from its start to that spanning tree |
| StpLiveness.QuietConverges | Sept24/04-stp/stp.c:203-268 | the spanning tree is there as soon as nothing in flight would be accepted and all who believe to be root have announced it; the channels need not be empty |
| StpLiveness.StableStays | Sept24/04-stp/stp.c:105-268 | in a stable state no step changes any switch, hello and loss included, and the next state is stable again |
| StpLiveness.ConvergedForGood | Sept24/04-stp/stp.c:105-268 | after lossless convergence no run of any steps, lossy ones included, changes a switch or breaks the tree |
| StpLiveness.EveryFairRunConverges | Sept24/04-stp/stp.c:105-268 | every endless lossless run of deliveries, hellos and duplications in which BPDUs in flight arrive and believed roots fire has the spanning tree in every state from some point on, for good, with each switch's parent and each link's designated end as StpParents gives them |
| MospfTypes.MaskedTwice | Oct29/08-mospf/mospf_daemon.c:545-552 | masking is idempotent |
| Bits.AndBit | Oct29/08-mospf/ip_base.c:36-37 | a bit of the conjunction that masking computes is set exactly if it is set on both sides |
| MospfPrefix.MaskedIsStart | Oct29/08-mospf/ip_base.c:36-37 | masking with p leading ones gives the first address of the block of 2^(32-p) addresses that holds the address |
| MospfPrefix.MatchesBlock | Oct29/08-mospf/ip_base.c:36-37 | a route whose mask has p leading ones matches exactly the addresses of that block of its prefix |
| MospfTypes.StoredLookup | Oct29/08-mospf/mospf_database.c:40-62 | an update changes the entry of one router only and keeps entries unique |
| MospfRouter.Router.DbLookup | Oct29/08-mospf/mospf_database.c:16-24 | the first entry of the router id, or none |
| MospfRouter.Router.DbUpdate | Oct29/08-mospf/mospf_database.c:40-62 | replaces the router's entry in place, or appends one |
| MospfRouter.RidIndex | Oct29/08-mospf/mospf_daemon.c:404-410 | a position of the router id in the list, -1 exactly if there is none |
| MospfRouter.Router.FindRidIp | Oct29/08-mospf/mospf_daemon.c:412-427 | the first neighbour with the id, in interface order |
| MospfTypes.FindHopIsFirst | Oct29/08-mospf/mospf_daemon.c:412-427 | the neighbour found has the id, and neither an earlier one of its interface nor any of an earlier interface has it; if none is found no neighbour has it |
| MospfRouter.Router.DestInRtable | Oct29/08-mospf/mospf_daemon.c:429-439 | true exactly when the prefix is in the table |
| MospfRouter.CollectNodes | Oct29/08-mospf/mospf_daemon.c:443-463 | every router of the database exactly once, self first, within the allocated array |
| MospfRouter.BuildGraph | Oct29/08-mospf/mospf_daemon.c:465-487 | the matrix is the symmetric adjacency of the advertisements, without self-loops |
| MospfSpf.SelectNearest | Oct29/08-mospf/mospf_daemon.c:497-505 | the first of the unvisited nodes of least finite distance, -1 exactly if there is none |
| MospfSpf.RelaxKeeps | Oct29/08-mospf/mospf_daemon.c:507-515 | visiting a nearest node and relaxing its edges keeps the invariant of the search |
| MospfSpf.Dijkstra | Oct29/08-mospf/mospf_daemon.c:489-516 | dist is the hop distance, INT_MAX exactly when unreachable, below n otherwise; prev is one hop closer along an edge |
| MospfSpf.FirstHop | Oct29/08-mospf/mospf_daemon.c:531-533 | the walk along prev ends at a neighbour of self that lies on a shortest path |
| MospfRouter.SameDistances | Oct29/08-mospf/mospf_daemon.c:465-516 | distances in the array graph are distances between the routers of the database |
| MospfRouter.Router.InstallEntry | Oct29/08-mospf/mospf_daemon.c:545-553 | adds every advertised prefix with non-zero mask that is not in the table yet |
| MospfRouter.Router.InstallDirect | Oct29/08-mospf/mospf_daemon.c:518-524 | the table becomes the connected prefixes, one per interface |
| MospfRouter.Router.InstallPosition | Oct29/08-mospf/mospf_daemon.c:531-553 | one reached router: first hop, its neighbour address, its entry; skipped if either is missing |
| MospfRouter.Router.InstallRoutes | Oct29/08-mospf/mospf_daemon.c:518-555 | connected prefixes, then the usable reachable routers by increasing distance, each once |
| MospfRouter.Router.UpdateRtable | Oct29/08-mospf/mospf_daemon.c:441-563 | the table is a routing table of the database: the whole chain from node list to installed routes |
| MospfRoutes.AddLsasExtends | Oct29/08-mospf/mospf_daemon.c:545-553 | installing one router keeps the table and adds distinct new prefixes of that router, over its next hop |
| MospfRoutes.InstallCovers | Oct29/08-mospf/mospf_daemon.c:526-555 | exactly the offered prefixes are added |
| MospfRoutes.FirstOfferIsClosest | Oct29/08-mospf/mospf_daemon.c:526-555 | the first router to offer a prefix is a closest one |
| MospfRoutes.RoutesInstalled | Oct29/08-mospf/mospf_daemon.c:518-555 | exactly one route per advertised prefix that is not connected, none otherwise; its gateway is the first hop of a shortest path to a closest advertiser |
| MospfRoutes.TableExists | Oct29/08-mospf/mospf_daemon.c:441-563 | for every database there is a routing table as the computation is proved to build one |
| MospfRouter.Router.LongestPrefixMatch | Oct29/08-mospf/ip_base.c:30-46 | returns what the specified lookup selects; MospfPrefix.LongestPrefixIsLongest says in blocks of addresses what that is |
| MospfRouter.LongestPrefixIsBest | Oct29/08-mospf/ip_base.c:30-46 | the selected route matches, none matches with a larger mask, none with the same mask comes earlier; none is selected exactly if none matches |
| MospfPrefix.LongestPrefixIsLongest | Oct29/08-mospf/ip_base.c:30-46 | of the routes whose blocks hold the destination the selected one has the longest prefix, and is the first such; none is selected exactly if no block holds it |
| MospfPrefix.RouteLeaves | Oct29/08-mospf/mospf_daemon.c:518-555 | in a computed table a connected route leaves over an interface of its own prefix, any other over the interface on which its gateway is a neighbour |
| MospfRouter.Router.GenerateLsas | Oct29/08-mospf/mospf_daemon.c:226-266 | a stub prefix per interface without neighbours, else one prefix per neighbour |
| MospfRouter.Router.NbrPrefixes | Oct29/08-mospf/mospf_daemon.c:252-258 | one prefix per neighbour of an interface, in order |
| MospfRouter.Router.SendLsu | Oct29/08-mospf/mospf_daemon.c:268-308 | the next 16-bit number and a fresh LSU to every neighbour |
| MospfRouter.Router.SendTo | Oct29/08-mospf/mospf_daemon.c:323-337 | one copy per neighbour of an interface, in order |
| MospfRouter.Router.SendCopies | Oct29/08-mospf/mospf_daemon.c:318-338 | a copy to every neighbour of every interface except one |
| MospfRouter.Router.HandleHello | Oct29/08-mospf/mospf_daemon.c:123-224 | a hello of the same subnet from an unknown neighbour adds it and triggers a new LSU; others change none of the lists, and MospfRouter.HelloLearns says which are learned (the counter that keeps a known neighbour alive is not modelled) |
| MospfRouter.HelloLearns | Oct29/08-mospf/mospf_daemon.c:123-224 | after a hello exactly the neighbours known before are known, and its sender if the address is not the own one, mask and subnet are those of the interface; none is listed twice |
| MospfRouter.Router.HandleLsu | Oct29/08-mospf/mospf_daemon.c:341-370 | own and not-newer LSUs change nothing; others are stored, passed on with lower times to live, and the table is recomputed |
| MospfRouter.Router.ForwardLsu | Oct29/08-mospf/mospf_daemon.c:310-339 | drops at TTL 0, else copies to all interfaces but the incoming one |
| MospfFlooding.NewerIsAhead | Oct29/08-mospf/mospf_daemon.c:356-359 | the signed 16-bit comparison means: ahead by less than half the number space |
| MospfFlooding.NewerIsLater | Oct29/08-mospf/mospf_daemon.c:356-359 | within half the space it is the true order |
| MospfFlooding.HalfSpaceIsTooFar | Oct29/08-mospf/mospf_daemon.c:356-359 | at half the space a later LSU is refused |
| MospfFlooding.TakesIsLater | Oct29/08-mospf/mospf_daemon.c:350-361 | with live numbers an LSU is taken exactly if it is later than the one held and not the router's own |
| MospfFlooding.SpreadContents | Oct29/08-mospf/mospf_daemon.c:318-338 | what is sent reaches exactly the neighbour ports of the other interfaces |
| MospfFlooding.OriginationReaches | Oct29/08-mospf/mospf_daemon.c:268-308 | an origination puts in flight exactly the next LSU of the router, both times to live full, to the neighbour ports of all its interfaces |
| MospfFlooding.DeliveryReaches | Oct29/08-mospf/mospf_daemon.c:310-370 | a delivery puts in flight exactly the LSU delivered, one hop on, to the neighbour ports of the other interfaces, if it is taken and is not at the end of its time to live |
| MospfFlooding.DeliveryLowersTtls | Oct29/08-mospf/mospf_daemon.c:310-316 | what a delivery adds carries the same LSU with each time to live one lower and still positive |
| MospfFlooding.RunKeepsTtls | Oct29/08-mospf/mospf_daemon.c:310-316 | over every run both times to live stay positive: if all that is in flight has them left at the start, so it has at the end |
| MospfFlooding.StepKeepsInv | Oct29/08-mospf/mospf_daemon.c:268-370 | originating, delivering and duplicating keep the flooding invariant; times to live have fallen once per distinct router passed |
| MospfFlooding.RunKeepsInv | Oct29/08-mospf/mospf_daemon.c:268-370 | so does every run |
| MospfFlooding.HeldNeverFalls | Oct29/08-mospf/mospf_database.c:40-62 | the LSU held for a router never gets older |
| MospfFlooding.TakenAtMostOnce | Oct29/08-mospf/mospf_daemon.c:341-370 | a router takes each (originator, number) at most once, however late copies arrive |
| MospfFlooding.FloodingAgrees | Oct29/08-mospf/mospf_daemon.c:268-370 | when nothing is in flight every reachable router holds the originator's newest LSU |
| MospfSettling.DeliveryLowers | Oct29/08-mospf/mospf_daemon.c:341-370 | every delivery narrows the gap between LSUs sent and held, or leaves fewer messages in flight |
| MospfSettling.EveryFloodSettles | Oct29/08-mospf/mospf_daemon.c:341-370 | every schedule of deliveries, in any order, empties the network |
| MospfSettling.FloodingIsReached | Oct29/08-mospf/mospf_daemon.c:268-370 | every network of stable neighbours has a run in which all originate and flooding settles |
| MospfForwarding.SameGraph | Oct29/08-mospf/mospf_daemon.c:465-487 | with complete databases every router builds the same graph |
| MospfForwarding.PrefixesShared | Oct29/08-mospf/mospf_daemon.c:518-555 | a prefix is in a table exactly if some reachable router is attached to it |
| MospfForwarding.GatewayIsCloser | Oct29/08-mospf/mospf_daemon.c:526-555 | the gateway is owned by an adjacent router one hop closer to a nearest attached router |
| MospfForwarding.SameSelection | Oct29/08-mospf/ip_base.c:30-46 | adjacent routers select the same prefix for a destination |
| MospfForwarding.ForwardingDescends | Oct29/08-mospf/ip_base.c:30-66 | a packet is delivered at distance 0, else handed to exactly one router, one hop closer, that selects the same prefix |
| MospfForwarding.PacketArrives | Oct29/08-mospf/ip_base.c:30-66 | hop-by-hop forwarding reaches a router attached to the longest matching prefix in the fewest hops |
| MospfDelivery.OwnPrefixes | Oct29/08-mospf/mospf_daemon.c:226-266 | a router advertises exactly the prefixes of its interfaces |
| MospfDelivery.FloodedIsComplete | Oct29/08-mospf/mospf_daemon.c:268-370 | settled flooding leaves exactly the other routers' advertisements in every database |
| MospfDelivery.FloodedIsSynchronised | Oct29/08-mospf/mospf_daemon.c:268-555 | then everything the forwarding theorem needs is in place |
| MospfNetwork.NetRunFloods | Oct29/08-mospf/mospf_daemon.c:341-370 | leaving out tables and recomputations, a run of the network is a run of flooding |
| MospfNetwork.SettledTables | Oct29/08-mospf/mospf_daemon.c:341-370 | once flooding has settled, the table each router computed when it last stored an LSU is one of its final database |
| MospfNetwork.SettledSynchronises | Oct29/08-mospf/mospf_daemon.c:268-563 | after any settled run the tables, databases and interfaces meet every hypothesis of hop-by-hop forwarding |
| MospfNetwork.NetworkDelivers | Oct29/08-mospf/mospf_daemon.c:268-563 | end to end, with tables recomputed by the steps that store LSUs: after any settled run, every packet with a route arrives by a shortest way |
| MospfNetwork.NetworkSettles | Oct29/08-mospf/mospf_daemon.c:268-563 | every network of stable neighbours has such a settled run |
| MospfReach.JoinedIsLinked | Oct29/08-mospf/mospf_daemon.c:226-266 | the advertised topology joins two routers exactly if one has a neighbour port of the other |
| MospfReach.EveryPrefixRouted | Oct29/08-mospf/mospf_daemon.c:268-563 | after any settled run the prefix of every interface of the network is in the table of every router |
| MospfReach.EveryAddressReached | Oct29/08-mospf/mospf_daemon.c:268-563 | then a packet from any router for any address on the prefix of any interface arrives at a router that has an interface on a prefix of the address at least as specific |
| HttpsRange.ParseDecimal | Sept10/02-socket/https-server.c:290-306 | min(the number written, UINTMAX_MAX), and the cursor behind its last digit; fails exactly if there is no digit |
| HttpsRange.SelectRange | Sept10/02-socket/https-server.c:309-344 | the saturating code makes the choice of the unbounded rules on saturated bounds; the Written lemmas and OnlyWrittenForms say what each header text means |
| HttpsRange.DigitsRoundTrip | Sept10/02-socket/https-server.c:289-306 | reading a printed number gives the number |
| HttpsRange.ChooseIsRight | Sept10/02-socket/https-server.c:309-344 | a part is non-empty, lies in the file and holds exactly the bytes asked for; unsatisfiable exactly if a valid range asks for no byte, so every suffix range of an empty file, which section 14.1.2 of RFC 9110 calls satisfiable unless its length is 0 |
| HttpsRange.SaturationHarmless | Sept10/02-socket/https-server.c:289-344 | saturation changes the answer exactly when both bounds are in the wrong order and the smaller one reaches UINTMAX_MAX |
| HttpsRange.WrittenIsBetween | Sept10/02-socket/https-server.c:289-344 | any two digit strings written as bytes=a-b, unit in any letter case, are read as the range between the numbers they stand for |
| HttpsRange.WrittenIsFrom | Sept10/02-socket/https-server.c:330-338 | any digit string written as bytes=a- is read as the range from that position to the end |
| HttpsRange.WrittenIsSuffix | Sept10/02-socket/https-server.c:319-328 | any digit string written as bytes=-a is read as the last so many bytes |
| HttpsRange.OnlyWrittenForms | Sept10/02-socket/https-server.c:309-344 | a header text that is not ignored has one of these three forms, for some unit and digit strings; every other is ignored |
| HttpsRange.CaseIsIgnored | Sept10/02-socket/https-server.c:313-314 | two texts are taken for equal exactly if they have the same letters, in either case, in the same places |
| HttpsRange.SaturationCanMatter | Sept10/02-socket/https-server.c:289-344 | a header text where it does: bytes= with the bounds UINTMAX_MAX + 1 and UINTMAX_MAX in decimal should be ignored and is refused |
| HttpsText.StrChrFirst | Sept10/02-socket/https-server.c:143-150 | the character search finds the first occurrence in the C string, or there is none |
| HttpsText.StrStrFirst | Sept10/02-socket/https-server.c:136-140 | the pattern search finds the first occurrence that starts before the terminating NUL, or there is none |
| HttpsText.CharacterClasses | Sept10/02-socket/https-server.c:119-181 | which characters are allowed in tokens, targets and field values, as the classes of RFC 9110 and printable ASCII |
| HttpsText.ParseRenderedField | Sept10/02-socket/https-server.c:166-181 | a field written by the grammar is read back, optional white space dropped |
| HttpsText.ParseRenderedLine | Sept10/02-socket/https-server.c:140-158 | a request line written by the grammar is read back |
| HttpsGrammar.NoteAllCounts | Sept10/02-socket/https-server.c:183-200 | fields are accepted exactly with at most one, non-empty Host; the counters and the range kept are those of the field list |
| HttpsGrammar.ParseRendered | Sept10/02-socket/https-server.c:134-202 | parsing any written header gives exactly the request it says, and fails exactly if its Host fields are wrong |
| HttpsGrammar.ParsesExactly | Sept10/02-socket/https-server.c:134-202 | a header text parses to a request if and only if it is a valid way of writing that request |
| HttpsGrammar.RenderedEndsAtBlank | Sept10/02-socket/https-server.c:136-138 | a written header contains no NUL and its first blank line is its end |
| HttpsGrammar.NameCaseIsIgnored | Sept10/02-socket/https-server.c:183-195 | two headers that differ only in the letter case of their field names are read alike |
| HttpsRequest.CheckToken | Sept10/02-socket/https-server.c:119-131 | true exactly for tokens |
| HttpsRequest.CheckTarget | Sept10/02-socket/https-server.c:156-158 | true exactly if every character is allowed in a target |
| HttpsRequest.CheckValue | Sept10/02-socket/https-server.c:179-181 | true exactly if every character is allowed in a field value |
| HttpsRequest.CutRequestLine | Sept10/02-socket/https-server.c:140-158 | the in-place cut leaves method, target and version as C strings, or refuses, as the grammar says |
| HttpsRequest.CutField | Sept10/02-socket/https-server.c:161-181 | the in-place cut leaves name and trimmed value as C strings, or refuses; nothing outside the line changes |
| HttpsRequest.TakeField | Sept10/02-socket/https-server.c:161-195 | one field line updates the Host, Range and If-Range notes as specified |
| HttpsRequest.TakeFields | Sept10/02-socket/https-server.c:160-195 | the loop reads exactly the field lines before the blank line, and earlier C strings survive the later NULs |
| HttpsRequest.ParseRequest | Sept10/02-socket/https-server.c:134-202 | the parser that writes NULs into the buffer refines the parse of the text before the first blank line |
| HttpsReply.DecisionIsFinal | Sept10/02-socket/https-server.c:462-495 | once the bytes received decide the request, no further byte changes the decision |
| HttpsReply.WrittenIsUnderstood | Sept10/02-socket/https-server.c:462-495 | any written header shorter than the buffer is recognised, whatever follows it |
| HttpsReply.StrStrTerminated | Sept10/02-socket/https-server.c:488-491 | what lies behind the terminating NUL of the buffer does not matter |
| HttpsReply.BodyIsWhatWasAsked | Sept10/02-socket/https-server.c:392-421 | the body sent is the whole file for an invalid range, else exactly the bytes the written range asks for |
| HttpsReply.LengthIsAnnounced | Sept10/02-socket/https-server.c:205-219 | every reply announces the length of its body |
| HttpsReply.AnswerAlwaysFits | Sept10/02-socket/https-server.c:359-422 | no reply to a header that fitted the input buffer overflows the location or output buffer |
| HttpsReply.RedirectKeepsPath | Sept10/02-socket/https-server.c:367-381 | a redirect keeps path and query and drops scheme and authority |
| HttpsClient.FileIsAnnounced | Sept10/02-socket/https-server.c:394-421 | a client that reads the reply to a file request by the grammar finds the status, one Content-Length that is the length of the body, and for a part a Content-Range with the first and last position of exactly the bytes sent and the size of the file |
| HttpsClient.SuffixGets | Sept10/02-socket/https-server.c:319-328 | bytes=-n gets the last min(n, size) bytes of the file; refused exactly if they are none |
| HttpsClient.FromGets | Sept10/02-socket/https-server.c:330-338 | bytes=a- gets the bytes from position a to the end; refused exactly if they are none |
| HttpsClient.BetweenGets | Sept10/02-socket/https-server.c:330-344 | bytes=a-b gets the bytes from a to b, refused exactly if they are none; in the wrong order the file is sent whole, or refused if both bounds reach UINTMAX_MAX |
| HttpsClient.OtherwiseAll | Sept10/02-socket/https-server.c:309-344 | without a range in one of the written forms the whole file is sent with status 200 |
| HttpsClient.NoFileReply | Sept10/02-socket/https-server.c:359-396 | every reply without a file has the status line of its reason, says so by the grammar, and has no body |
| HttpsClient.RedirectLeads | Sept10/02-socket/https-server.c:367-381 | the Location of a redirect is the HTTPS origin with the path of the request, authority dropped |
| HttpsClient.TypeByEnding | Sept10/02-socket/https-server.c:347-357 | a path ending in .html, .htm or .txt, in any letter case, gets that Content-Type, whatever query follows it |
| HttpsClient.TargetIsPlain | Sept10/02-socket/https-server.c:156-158 | the target of every request that is accepted is printable ASCII, so it cannot break a header line |
| HttpsClient.AnswerIsFramed | Sept10/02-socket/https-server.c:359-495 | whatever the bytes received decide, the answer is one header of the grammar whose first blank line is its end, with one Content-Length, and then exactly that many bytes |
| HttpsServer.Connection.constructor | Sept10/02-socket/https-server.c:565-571 | a new connection starts with the handshake, or reading if there is no TLS |
| HttpsServer.Connection.PutHeader | Sept10/02-socket/https-server.c:205-219 | the header is in the buffer and nothing of it is sent, or it is too long |
| HttpsServer.Connection.OpenFile | Sept10/02-socket/https-server.c:392-421 | header and file window of a range request, offsets included |
| HttpsServer.Connection.BuildResponse | Sept10/02-socket/https-server.c:359-422 | buffer and file window are those of the reply to the request in the input buffer |
| HttpsServer.Connection.Receive | Sept10/02-socket/https-server.c:471-495 | one read of any size: the invariant holds, and a complete header is answered |
| HttpsServer.Connection.Take | Sept10/02-socket/https-server.c:488-495 | the bytes taken are the client's next ones; a complete header is answered and less is left to do, whatever the count |
| HttpsServer.Connection.RefuseHeader | Sept10/02-socket/https-server.c:463-470 | a full buffer without a header is answered with 431 |
| HttpsServer.Connection.Round | Sept10/02-socket/https-server.c:448-545 | one round of the state machine keeps the invariant, sends at most a buffer, and makes a call or moves on to a later state |
| HttpsServer.Connection.WriteOn | Sept10/02-socket/https-server.c:497-529 | in the writing state: send, refill, or find that everything is sent |
| HttpsServer.Connection.Send | Sept10/02-socket/https-server.c:507-525 | one write of any size: exactly the next bytes of the buffer reach the wire; one that is not taken is recorded with its place and data |
| HttpsServer.Connection.ReadFileChunk | Sept10/02-socket/https-server.c:425-442 | refilling keeps what is pending: the next bytes of the window |
| HttpsServer.Connection.Drive | Sept10/02-socket/https-server.c:445-546 | terminates; the wire grows, always to a prefix of the answer, by less than 64 KiB + 8 KiB; closing means complete; it breaks off only after a failed call or a client that never sent a request; the work left never grows, and falls if the first call moves something |
| HttpsServer.Connection.ValidIsRight | Sept10/02-socket/https-server.c:445-546 | what was sent is a prefix of the answer to the whole stream, and all of it in the closing state |
| HttpsServer.Serve | Sept10/02-socket/https-server.c:654-671 | one connection over any sequence of schedules: prefix always, equal at the end, at most one yield per 64 KiB; closed with the whole answer sent once there were more schedules than work left, each moving something and none failing |
| HttpsServer.SchedulesDoNotMatter | Sept10/02-socket/https-server.c:445-546 | two connections with the same client bytes, files and kind that finish have sent the same bytes, however reads and writes were split |
| ArpCache.Cache.Lookup | Oct29/08-mospf/arpcache.c:53-70 | finds an address exactly if the table knows it, and the MAC known |
| ArpCache.Cache.SelectSlot | Oct29/08-mospf/arpcache.c:120-137 | the address's own slot, else the first free one, else the random one |
| ArpCache.Cache.Append | Oct29/08-mospf/arpcache.c:79-113 | one more pending packet for its key, at the end; an ARP request exactly for the first |
| ArpCache.Cache.Insert | Oct29/08-mospf/arpcache.c:118-168 | stores the address in the chosen slot and sends every packet that waited for it, in order; its requests are gone. ArpFates.InsertionSends says with which MAC |
| ArpCache.Cache.Sweep | Oct29/08-mospf/arpcache.c:179-234 | old entries invalid; requests retried or, after five retries, refused packet by packet |
| ArpCache.Cache.Deliver | Oct29/08-mospf/arpcache.c:153-161 | packets leave in their order with the given MAC, as ArpFates.InsertionSends states it of the log |
| ArpCache.Cache.Refuse | Oct29/08-mospf/arpcache.c:221-233 | every packet of a timed-out request is answered with host unreachable, in order |
| ArpCache.InsertedTable | Oct29/08-mospf/arpcache.c:118-142 | an insertion changes what is known of its address only, except for one evicted address when the table is full; no address is listed twice |
| ArpCache.AgedTable | Oct29/08-mospf/arpcache.c:192-199 | ageing forgets exactly what is older than 15 seconds |
| ArpCache.DeliveriesLog | Oct29/08-mospf/arpcache.c:146-165 | what an insertion sends for a key is what was pending for it |
| ArpCache.SweptPending | Oct29/08-mospf/arpcache.c:200-218 | a sweep splits the pending packets of a key between dropped and kept without reordering |
| ArpCache.InsertKeepsAccounts | Oct29/08-mospf/arpcache.c:118-168 | conservation, order, uniqueness and retry counts survive an insertion |
| ArpCache.SweepKeepsAccounts | Oct29/08-mospf/arpcache.c:179-234 | and a sweep |
| ArpCache.AppendKeepsAccounts | Oct29/08-mospf/arpcache.c:79-113 | and an appended packet |
| ArpCache.StepKeepsAccounts | Oct29/08-mospf/arpcache.c:79-234 | conservation, order, uniqueness and retry counts survive every operation of the cache |
| ArpRuns.StepFind | Oct29/08-mospf/arpcache.c:79-234 | what each operation makes of the request of any key |
| ArpRuns.StepOut | Oct29/08-mospf/arpcache.c:79-234 | an operation sends or refuses all that waited for a key, in order, if its address came or its retries are used up, and nothing of it otherwise |
| ArpRuns.RunKeepsAccounts | Oct29/08-mospf/arpcache.c:79-234 | every run of appends, insertions and sweeps keeps the accounts |
| ArpRuns.WaitIsBounded | Oct29/08-mospf/arpcache.c:200-218 | in any such run every waiting packet has been delivered or refused, in order, by the time of the (6 - retries)-th of sweeps a second apart |
| ArpRuns.NeverDroppedEarly | Oct29/08-mospf/arpcache.c:200-218 | in any such run, whatever the rhythm of sweeps, a request whose address does not come stays until its retries are used, a second each, with every packet added since |
| ArpRuns.LifetimeExactly | Oct29/08-mospf/arpcache.c:200-218 | among spaced sweeps its packets stay exactly as long as there are no more sweeps than retries left |
| ArpRuns.RefusedAfterSix | Oct29/08-mospf/arpcache.c:200-218 | a request is given up after six ARP requests, the first and five retries |
| ArpFates.InsertionSends | Oct29/08-mospf/arpcache.c:146-165 | everything an insertion adds to the log is a packet sent, for its IP address and with its MAC |
| ArpFates.SweepRefuses | Oct29/08-mospf/arpcache.c:200-233 | everything a sweep adds is an ARP request or the refusal of a packet whose request has used up its retries |
| ArpFates.StepLeft | Oct29/08-mospf/arpcache.c:118-234 | in one operation the packets of a key leave all together, in order and with one fate: sent with the MAC inserted for their address, refused after five retries, or not at all |
| ArpFates.HowPacketsLeave | Oct29/08-mospf/arpcache.c:79-234 | over any run the packets of a request either still wait, with those added since, or left in order at one operation: all sent with the MAC of an insertion of their address, or all refused and then no insertion of the address came before |
| MacTable.Hash8 | Sept17/03-hub+switch/switch/include/hash.h:11-18 | the exclusive or of the bytes, below 256 |
| MacTable.HashBit | Sept17/03-hub+switch/switch/include/hash.h:11-18 | a bit of the hash is set exactly if an odd number of the bytes have it |
| MacTable.Table.LookupPort | Sept17/03-hub+switch/switch/mac.c:49-68 | the port the map gives, or none; a hit refreshes the entry |
| MacTable.Table.InsertMacPort | Sept17/03-hub+switch/switch/mac.c:71-101 | the map learns the port; a new address is lost only without memory |
| MacTable.Table.SweepBucket | Sept17/03-hub+switch/switch/mac.c:133-141 | one bucket loses exactly idle entries and none that is left is idle; the other buckets are untouched |
| MacTable.Table.SweepAged | Sept17/03-hub+switch/switch/mac.c:123-146 | the map loses exactly the entries idle for 30 seconds or more, and their number is returned |
| MacTable.Table.HandlePacket | Sept17/03-hub+switch/switch/main.c:20-34 | forwards to the learned port of the destination, else to all, and learns the source |
| MacTable.ChangeBucket | Sept17/03-hub+switch/switch/mac.c:49-146 | changing one bucket changes what is known of the addresses that hash to it only |
| MacTable.KnowsLastPort | Sept17/03-hub+switch/switch/mac.c:49-146 | over any run of operations a known address is known with the port it was seen on last |
| MacTable.StaysKnown | Sept17/03-hub+switch/switch/mac.c:49-146 | a learned address stays known with its port until a sweep thirty seconds after it was last seen |
| MacTable.KnowsLastTime | Sept17/03-hub+switch/switch/mac.c:49-146 | over any run the time kept of a known address is that of the last operation that saw it, lookups included |
| MacTable.ForgetsExactly | Sept17/03-hub+switch/switch/mac.c:123-146 | a sweep leaves an address known exactly if it was known and last seen less than thirty seconds ago |
| MacTable.LookupKeeps | Sept17/03-hub+switch/switch/mac.c:49-68 | an address looked up at t stays known, with its port, until a sweep at t + 30 |
| MacTable.KnownWasLearned | Sept17/03-hub+switch/switch/mac.c:71-101 | only addresses that were learned are known |
| Checksum.Checksum | Oct16/06-router/include/checksum.h:8-23 | for every buffer, length and initial sum: the complement of the one's complement value of the 32-bit accumulator |
| Checksum.TwoFoldsSuffice | Oct16/06-router/include/checksum.h:19-22 | two folds reduce any 32-bit sum completely, without overflow |
| Checksum.OnesSumIsOnes | Oct16/06-router/include/checksum.h:14-20 | summing first and folding afterwards equals adding with end-around carries (section 1 of RFC 1071) |
| Checksum.ResultIsOnesSum | Oct16/06-router/include/checksum.h:8-23 | up to 131074 bytes the result is the RFC 1071 checksum |
| Checksum.OverflowShows | Oct16/06-router/include/checksum.h:14-20 | a wrapped accumulator gives a wrong sum, exactly unless the wraps are a multiple of 65535 and leave a non-zero rest |
| Checksum.StoreAndVerify | Oct16/06-router/include/checksum.h:8-23 | a packet with the checksum stored in its zero field verifies to 0 |
| Checksum.SwappedSum | Oct16/06-router/include/checksum.h:14-17 | summing byte-swapped words gives the byte-swapped sum (section 2 of RFC 1071) |
| Checksum.NativeOrderIsSound | Oct16/06-router/include/checksum.h:8-23 | read and stored in the machine's order, odd length included, it is the checksum of the network-order words |

## Left out

- Sockets, epoll registration, raw interfaces, OpenSSL and signals: only their results appear, as parameters.
- Topology changes, BPDU ageing and port state timers: the spanning tree code does not implement them, so the topology is fixed; every path cost is 1, as the code sets it, and the root port is an index instead of a pointer.
- StpNetwork.StepKeepsInv: channels are a bag of BPDUs without capacity, and a handler's BPDUs are put in flight in one step with the state change, as under the lock.
- StpConvergence.Converges: takes networks of fewer than 2^31 switches, because the cost is a C int.
- Atomicity of the LSU handler: `handle_mospf_lsu` does not take `mospf_lock`; the model takes each handler as one step.
- MospfFlooding.FloodingAgrees: assumes stable neighbours, no expiry, LSUs less than half the 16-bit number space old, and at most 65 routers (64 is the IP time to live); an LSU sent to a neighbour's address arrives at the port that owns it, if it is not lost among duplicates and delays.
- MospfRouter.Router.HandleHello: does not model the counter `alive`, which a hello of a known neighbour resets, because the thread that counts it up and drops neighbours is left out.
- MospfNetwork.NetworkDelivers: the only router of a network never stores an LSU, so it must start with a table of its database.
- MospfRouter.Router.UpdateRtable: requires at most 46340 routers in the database, since the size n * n of the adjacency matrix is a C int; the matrix is a two-dimensional array here.
- MospfForwarding.PacketArrives: does not count down the data packet's time to live, and leaves the default route (mask 0) to nobody, as the daemon does not install it.
- Database expiry and neighbour loss (the ageing threads), hello sending, and packet validation (lengths, MOSPF checksum): well-formed packets are taken as given.
- The lookup of local files and path safety (`open_local_file`): a function from targets to contents stands for it; contents do not change during a reply, and `fstat` and `open` agree.
- HttpsServer.Connection.Drive: does not model which readiness event `watch` registers, nor its failure, nor the contents of TLS records; the length checks of `snprintf` are modelled, its return of a negative value is not.
- HttpsServer.Serve: models one connection of the event loop, and says nothing about fairness between connections beyond the bound on yields of one.
- ArpCache.Cache.Sweep: reads the clock once, where the code reads it again for each retry; dropping happens in the same step, where the code answers after releasing the lock; the contents of packets and of the ARP and ICMP packets sent are not modelled, packets are numbers.
- Linked lists are sequences: relinking, freeing and allocation failure (except for a new MAC entry) are not modelled.
- MacTable.Table.HandlePacket: gives None where the code broadcasts; sending the frame to the other interfaces is not modelled.
- MacTable.Table.InsertMacPort: interfaces are numbers, and the frame itself is not modelled.
- Checksum.Checksum: models a little-endian machine; the version in the later labs adds an odd last byte after folding and agrees for even lengths only.
- Memory management, threads, logging and dumps.
