# Quagga-SRx: proofs about its routing protocols

A Dafny model of the parts of Quagga-SRx and of the SRx crypto API whose
correctness is least obvious, with proofs of what those parts are for:

* **Babel** (`quagga-srx/babeld`): the route and source tables, the feasibility
  condition and loop freedom of a whole network; the update messages that leave
  out what the receiver can reconstruct; the update queue and the packet limiter.
* **BGPsec** (`srx-crypto-api`): the single buffer whose suffixes are the hash
  inputs of all signatures of a path.
* **BGP** (`quagga-srx/bgpd`): AS paths (normal form, octets, text, reconciliation
  of 2-octet and 4-octet AS numbers), communities, and the queue of pending
  advertisements.

`dafny verify dfyconfig.toml` checks everything.

## How the model is organised

| files | subject |
|---|---|
| `Lists`, `Octets`, `Sorting`, `Decimal` | lists of anything, octet strings and `memcmp`, `qsort` and sets as ascending lists, decimal numerals |
| `Distance`, `Sources` | circular sequence numbers, feasibility distances, the source table |
| `RouteSlot`, `RouteUpdate` | the routes to one destination, as functions: installing, switching, selecting, `update_route`, `flush_route`, ... |
| `RouteTable` | class `Router`: the table of slots with binary search, proved against those functions; the slot array and the lists in it are sequences that the methods reassign |
| `RouteAdoption`, `BabelNetwork`, `LoopExample` | what one operation may adopt, the network as a transition system, loop freedom, and the run in which the code as it stands loops |
| `RouteChoice`, `RouteFields` | which route is in use after each decision, in metrics, times and distances; what each operation writes, field by field |
| `RouteLimits` | exactly when `find_best_route` and `route_lost` keep their promise, and inputs at which `route.c` falls short |
| `UpdateDecoder`, `UpdateEncoder`, `UpdateRoundTrip`, `SendBuffer` | receiver, sender, their agreement, and class `Interface` with the send buffer as an array |
| `PrefixBits`, `UpdateMeaning`, `UpdateEconomy` | masking and decompression bit by bit; what any TLV means, octet by octet; the fewest octets that an update adds |
| `DecoderLimits` | when the receiver depends on octets behind the packet, on the wrong default prefix, or on variables never set |
| `TokenBucket`, `UpdateQueue` | `check_bucket`; `compare_buffered_updates` and `flushupdates` |
| `HashMessage` | hash inputs of section 4.2 of RFC 8205 and the one pass that lays them out |
| `AsPath`, `AsPathWire`, `AsPathReconcile`, `AsPathString` | AS paths |
| `Community`, `CommunityString` | communities |
| `Advertise` | pending advertisements as a value, its invariant, and every run |
| `AdvertiseLists`, `AdvertiseStructures`, `AdvertisePeer` | the same as linked structures: advertisements on the doubly linked list of their attribute, what the structures stand for, and class `Peer` |

Code that works in place is modelled in place: `RouteTable.Router`,
`SendBuffer.Interface`, `TokenBucket.Limiter`, `Community.Community`,
`AdvertiseLists.Chain` and `AdvertisePeer.Peer` are classes, buffers are arrays,
and loops are loops; each method is proved against a function, and what the
source promises is proved about that function. The advertisements of a `Peer`
are objects with `next` and `prev`, its attributes are objects with a count and a
list head, and `Represents` ties them to a value of `Advertise`. In `Router` the
slot array and the `next` links of routes are sequences.

## Assumptions of the loop-freedom theorem

They are predicates of `BabelNetwork` and concern every state of a run: the
stored cost of a link is at least 1 (`EnvOk`), no source outlives SOURCE_GC_TIME
without refresh (`Fresh`), and the live sequence numbers of one source lie within
half of the 16-bit circle (`Windowed`). Messages may be lost, delayed, repeated
and reordered; any number of routers may take part; every call into the kernel
may fail, so installs and switches may not happen.

The rest is about single steps (`Guarded`), and each part is the guard of one
branch of `route.c`:

* No unfeasible update revives a retracted route that is still installed
  (`Resurrects`). The comment at `route.c:720-723` says that such updates are
  ignored; the code at `route.c:737-742` stores them all the same.
  `LoopExample.UnguardedRunLoops` exhibits a run with a kernel that never fails
  that ends in a loop.
* No change of metric that the kernel refuses leaves a route with the sequence
  number of one distance and the metric of another (`Mixes` for `update_route`,
  `RenumbersExpired` for a route that expires): `change_route_metric` returns
  early at `route.c:485-488` when its caller has already written the new sequence
  number. `RouteLimits.MixesHere` and `RouteLimits.RenumbersHere` are inputs.
* `insert_route` does not fail after the source was retained (`Leaks`).

`RouteAdoption.UpdateRouteAdopts` says for every kernel answer exactly when
`update_route` adopts nothing unfeasible.

## Where the code differs from what is said about it

* `route.c:720-723` against `737-742`, and `485-488`: see above.
* `route.c:771-792`: when `insert_route` fails, the source that was retained is
  never released. `RouteUpdate.UpdateRouteOk`: the reference counts stay exact if
  and only if that branch is not taken. Input: `RouteLimits.LeaksHere`.
* `route.c:584`: the comment promises the feasible route with the smallest metric,
  but the head of the list is taken as it is, feasible or not.
  `RouteLimits.BestForIsBest` says when the promise is kept,
  `RouteLimits.RouteLostStrands` when `route_lost` installs nothing although it
  could. Input: `RouteLimits.Strands`.
* `message.c`, loop of `parse_packet`: the bounds check forgets the two octets of
  type and length, so the last TLV may extend past the packet.
  `DecoderLimits.FramesInside`: the octets behind the packet matter if and only if
  the length octet of some TLV that is not padding, plus 2, exceeds what remains.
  Input: `DecoderLimits.OverreadAnnounced`.
* `message.c`, UPDATE case of `parse_packet`: whether a default prefix is known is
  looked up by the flags octet (`message[3] == 1`) instead of the address
  encoding. `DecoderLimits.LookupsAgree` says exactly when that makes no
  difference. Inputs: `DecoderLimits.CompressedV4Dropped`, and
  `DecoderLimits.UnsetPrefixAnnounced`, where the prefix comes from a variable
  that was never set. `DecoderLimits.TlvIgnoresJunk`: nothing else depends on such
  variables.
* `srxcryptoapi.c:1698`: with no block for the wanted algorithm the status is
  ERR_USER1, where the documentation names ERR_USER2.
* `srxcryptoapi.c:1590-1596`: the size counts all signature segments of the block,
  the pass copies one for each hop. With more signatures than hops every hash input
  ends in octets that section 4.2 of RFC 8205 does not have.
  `HashMessage.GenerateHashMessage`: the inputs are as prescribed if and only if
  there is one signature for each hop. Input: `HashMessage.ExtraSignature`.
* `srxcryptoapi.c:1515-1541`: the header of a signature block is read without
  looking whether it is there. `HashMessage.BlockDecided` says exactly when what
  follows the attribute decides.
* `bgp_aspath.c:903-909`: a segment that needs several chunks is written with its
  beginning repeated, and the returned length counts too much.
  `AsPathWire.PutRoundTrip32`: what is written is read back if and only if no
  sequence has more than 510 AS numbers and no other segment more than 255.
  Inputs: `AsPathWire.LongSequenceFails`, `AsPathWire.LongSetFails`.
  `AsPathWire.CountExact` and `AsPathWire.PackedLengthExact` say exactly when the
  count and the packed length octet are right.
* `bgp_aspath.c:1487-1497`: when AS4_PATH is longer than AS_PATH the standard
  (section 4.2.3 of RFC 6793) says to ignore AS4_PATH; the code appends it to the
  whole of AS_PATH. `AsPathReconcile.ReconcileHops` states the resulting length.
* `bgp_community.c:99-112`: an attribute deleted from itself loses every other
  value only (`Community.Community.Delete`).

## Model

| member | source | states |
|---|---|---|
| `Distance.CompareIsIntegerOrder` | quagga-srx/babeld/util.h:69-88 | inside any half circle, circular comparison and difference of sequence numbers are those of the integers |
| `Distance.CompareCyclesOutsideWindow` | quagga-srx/babeld/util.h:69-77 | outside a half circle the comparison has a cycle |
| `Distance.SeqnoPlusLater` | quagga-srx/babeld/util.h:84-88 | counting up by less than half the circle gives a later number, and the difference is that count |
| `Distance.BetterTransitive` | quagga-srx/babeld/route.c:565-582 | the order on (seqno, metric) is transitive in a half circle |
| `Distance.BetterTotal` | quagga-srx/babeld/route.c:565-582 | and total, and strict |
| `Sources.UpdateSourceWrites` | quagga-srx/babeld/source.c:128-146 | a finite pair refreshes the time, and replaces the stored pair exactly when that is older than 200 seconds or the new one is ahead on the circle or smaller |
| `Sources.UpdateSourceBest` | quagga-srx/babeld/source.c:128-146 | one refresh keeps the better of the stored and the offered pair |
| `Sources.StaleAfterSilence` | quagga-srx/babeld/source.c:128-166 | after any run a source is stale exactly when its last finite pair is more than 200 seconds old |
| `Sources.FdIsBestEver` | quagga-srx/babeld/source.c:128-146 | after any run of refreshes the stored pair was offered and is no worse than every pair offered |
| `Sources.FeasibleBeatsHistory` | quagga-srx/babeld/route.c:565-582 | a finite update is feasible if and only if it is strictly better than everything ever offered |
| `RouteSlot.Find` | quagga-srx/babeld/route.c:118-137 | the first route through a neighbour and next hop |
| `RouteSlot.BestFor` | quagga-srx/babeld/route.c:585-607 | for feasible routes only or all, with or without an excluded neighbour: the first of the smallest metric among the head and the candidates |
| `RouteSlot.InstalledOk` | quagga-srx/babeld/route.c:361-466 | a successful install or switch leaves the same routes, one destination, distinct keys, and only the head installed |
| `RouteSlot.SwitchReselects` | quagga-srx/babeld/route.c:435-466 | whatever the kernel answers, a switch installs only the route that was feasible |
| `RouteSlot.ConsiderReselects` | quagga-srx/babeld/route.c:821-860 | considering a route installs nothing unfeasible and loses no route; when it is installed is said by `RouteChoice.ConsiderDecides` |
| `RouteChoice.MetricSum` | quagga-srx/babeld/route.h:73-78 | the metric is the sum of reference metric, cost and filter, and infinite from 65535 on |
| `RouteChoice.NoninterferingRounds` | quagga-srx/babeld/route.h:80-89 | without interference a rounded share of the cost counts, and the result exceeds the reference metric |
| `RouteChoice.NoninterferingWhole` | quagga-srx/babeld/route.h:80-89 | a share of 256 gives the ordinary metric |
| `RouteChoice.FeasibleIsAcceptable` | quagga-srx/babeld/route.c:502-518 | a route may be used exactly when it retracts, is better than the distance known or that is forgotten, and was heard within its hold time |
| `RouteChoice.ConsiderDecides` | quagga-srx/babeld/route.c:821-860 | for every kernel answer, the route considered is in use afterwards if and only if it was, or it is feasible, nothing has precedence, the kernel obeys, and there is no installed route, or it is finite and the installed one infinite or worse by at least 64; otherwise nothing changes |
| `RouteChoice.ConsiderNeverWorse` | quagga-srx/babeld/route.c:821-860 | the metric of the installed route never rises |
| `RouteChoice.ConsiderKeepsOrder` | quagga-srx/babeld/route.c:361-375 | the new route is at the head and the others keep their order |
| `RouteChoice.RouteChangedDecides` | quagga-srx/babeld/route.c:943-965 | after a rise of the installed metric another route takes over if and only if it is the first of the best usable ones, at least 96 better, nothing has precedence and the kernel obeys |
| `RouteChoice.ChangedIsConsidered` | quagga-srx/babeld/route.c:943-965 | a changed route that is not installed is taken into use under the conditions of `consider_route` |
| `RouteChoice.RouteLostDecides` | quagga-srx/babeld/route.c:968-983 | after a loss the head is taken unless a usable route beats it, and then the first best one is |
| `RouteSlot.RouteChangedReselects` | quagga-srx/babeld/route.c:943-965 | the same for a changed metric |
| `RouteSlot.RouteLostReselects` | quagga-srx/babeld/route.c:968-983 | the same for a lost route |
| `RouteUpdate.UpdateRouteOk` | quagga-srx/babeld/route.c:670-795 | slot structure and exact reference counts are kept if and only if the leaking branch is not taken |
| `RouteFields.UpdateRouteWrites` | quagga-srx/babeld/route.c:737-743 | the stored route has the source, seqno, time, hold time and, unless the kernel refuses, the metrics that the update calls for: the time is now exactly for a finite update that is feasible or wanted all the same; every other route is as it was |
| `RouteFields.RefreshedLives` | quagga-srx/babeld/route.c:737-743 | a refreshed route is not expired for 15 seconds, nor for six announced intervals less two seconds |
| `RouteFields.OverwrittenMetric` | quagga-srx/babeld/route.c:737-743 | unless the kernel refuses, its metric is the capped sum of what was announced, the link cost and the filter |
| `RouteFields.UpdateRouteConsiders` | quagga-srx/babeld/route.c:737-752 | an update takes an alternative into use exactly when that is worth while |
| `RouteFields.UpdateRouteLeaves` | quagga-srx/babeld/route.c:737-752 | an update of the installed route makes another take over exactly when the metric rose and the other is the first best one by at least 96 |
| `RouteFields.UpdateRouteLoses` | quagga-srx/babeld/route.c:724-747 | an unfeasible update for another source takes the installed route out of use, and which one replaces it |
| `RouteFields.UpdateRouteIgnores` | quagga-srx/babeld/route.c:684-696 | own, unroutable and filtered updates change nothing |
| `RouteFields.UpdateRouteAdds` | quagga-srx/babeld/route.c:753-795 | a route never seen is stored, with which fields, and taken into use exactly when |
| `RouteFields.UpdateRouteSources` | quagga-srx/babeld/route.c:698-707 | known sources keep distance and time, a new one starts without distance |
| `RouteUpdate.FlushRouteOk` | quagga-srx/babeld/route.c:211-260 | flushing keeps them, and the released count was positive |
| `RouteFields.FlushRouteRemoves` | quagga-srx/babeld/route.c:211-260 | the route is gone, its source counts one less, and which route replaces it if it was installed |
| `RouteUpdate.UpdateRouteMetricOk` | quagga-srx/babeld/route.c:609-632 | so does a change of link cost or an expiry |
| `RouteFields.ExpiredIsRetracted` | quagga-srx/babeld/route.c:609-622 | an expired route is retracted under the successor of its source's seqno |
| `RouteFields.UpdateRouteMetricWrites` | quagga-srx/babeld/route.c:623-634 | another gets the new link cost unless the kernel refuses, and who takes over if its metric changed |
| `RouteUpdate.RetractRouteOk` | quagga-srx/babeld/route.c:496-500 | so does a retraction |
| `RouteFields.RetractRouteWrites` | quagga-srx/babeld/route.c:496-500 | a retracted route has no metric any more unless the kernel keeps it, and who takes over |
| `RouteLimits.BestForIsBest` | quagga-srx/babeld/route.c:584-607 | the route found is a candidate of smallest metric if and only if the head is a candidate or a candidate beats it |
| `RouteLimits.RouteLostInstalls` | quagga-srx/babeld/route.c:968-983 | with nothing installed, `route_lost` installs a route exactly when none blocks it, the kernel obeys, and the head is feasible or a usable route beats it |
| `RouteLimits.RouteLostStrands` | quagga-srx/babeld/route.c:968-983 | a usable finite route is left uninstalled if and only if the head is unfeasible and no usable route has a smaller metric |
| `RouteLimits.Strands` | quagga-srx/babeld/route.c:968-983 | a list at which that happens |
| `RouteLimits.LeaksHere` | quagga-srx/babeld/route.c:771-792 | an update at which the failing insertion breaks the reference counts |
| `RouteLimits.MixesHere` | quagga-srx/babeld/route.c:469-494 | a refused retraction after which an installed route claims a distance that nobody told |
| `RouteLimits.MislabelsHere` | quagga-srx/babeld/route.c:469-494 | a refused retraction that leaves an unfeasible distance under another source in use |
| `RouteLimits.RenumbersHere` | quagga-srx/babeld/route.c:609-620 | an expired route that keeps its metric under a new sequence number |
| `RouteAdoption.UpdateRouteAdopts` | quagga-srx/babeld/route.c:670-795 | for every kernel answer, nothing unfeasible is newly used for forwarding if and only if the update does not revive a retracted installed route and no refused change of metric leaves an unfeasible distance under a new source |
| `RouteAdoption.UpdateRouteStep` | quagga-srx/babeld/route.c:670-795 | distances are kept and every stored route repeats, retracts or was told by the update, unless it revives a route or a refused change of metric mixes two distances |
| `RouteAdoption.FlushRouteStep` | quagga-srx/babeld/route.c:211-260 | the same for flushing |
| `RouteAdoption.UpdateRouteMetricStep` | quagga-srx/babeld/route.c:609-632 | the same for a metric change, for every kernel answer but one that keeps an expired route finite |
| `RouteAdoption.RetractRouteStep` | quagga-srx/babeld/route.c:496-500 | the same for a retraction, which with an unchanged seqno holds for every kernel answer |
| `BabelNetwork.AdvertiseKeepsInv` | quagga-srx/babeld/message.c:1019-1052 | advertising and refreshing the source keep the network invariant: messages are backed by the sender's distance and successors are strictly better |
| `BabelNetwork.StepKeepsInv` | quagga-srx/babeld/route.c:565-860 | every guarded step of every router keeps it |
| `BabelNetwork.RunKeepsInv` | quagga-srx/babeld/route.c:565-860 | it holds in every state of every guarded run |
| `BabelNetwork.BabelIsLoopFree` | quagga-srx/babeld/route.c:565-860 | in every state of every guarded run, no sequence of next hops for one source returns to its start |
| `LoopExample.UnguardedRunLoops` | quagga-srx/babeld/route.c:716-752 | a run inside all assumptions but the guard, with a kernel that never fails, ends with two routers forwarding to each other |
| `RouteTable.SlotOrder` | quagga-srx/babeld/route.c:68-82 | slots are ordered by the octets of the prefix, shorter prefixes first |
| `RouteTable.CompareTransitive` | quagga-srx/babeld/route.c:68-82 | the slot order is transitive |
| `RouteTable.CompareAntisymmetric` | quagga-srx/babeld/route.c:68-82 | and antisymmetric |
| `RouteTable.InstalledIsHead` | quagga-srx/babeld/route.c:139-148 | an installed route is the head of the only list of its destination |
| `RouteTable.InstallOk` | quagga-srx/babeld/route.c:377-466 | install, uninstall and switch keep a list well formed for every kernel answer |
| `RouteTable.TableOkElsewhere` | quagga-srx/babeld/route.c:68-260 | an operation on one destination keeps or breaks the table exactly there |
| `RouteTable.RoomKept` | quagga-srx/babeld/route.c:157-247 | growing the slot array makes room, shrinking leaves at least twice what is used |
| `RouteTable.Router.constructor` | quagga-srx/babeld/route.c:56-66 | the empty table is in order |
| `RouteTable.Router.FindRouteSlot` | quagga-srx/babeld/route.c:87-116 | the binary search agrees with a scan, and tells where a missing destination belongs |
| `RouteTable.Router.FindRoute` | quagga-srx/babeld/route.c:118-137 | finds the route through a neighbour and next hop |
| `RouteTable.Router.FindInstalledRoute` | quagga-srx/babeld/route.c:139-148 | binary search and a look at the head find exactly what a scan of all routes finds |
| `RouteTable.Router.InsertRoute` | quagga-srx/babeld/route.c:179-209 | appends to the list of the destination or inserts a slot in order; fails exactly when the array is full and cannot grow; the new size of the array |
| `RouteTable.Router.Unlink` | quagga-srx/babeld/route.c:211-254 | removes one route, and the slot when it was the last; the new size of the array, which is looked at only when the head went |
| `RouteTable.Router.MoveInstalledRoute` | quagga-srx/babeld/route.c:361-375 | moves a route to the head |
| `RouteTable.Router.InstallRoute` | quagga-srx/babeld/route.c:377-411 | its effect for every kernel answer; a valid table stays valid |
| `RouteTable.Router.UninstallRoute` | quagga-srx/babeld/route.c:413-429 | the same |
| `RouteTable.Router.SwitchRoutes` | quagga-srx/babeld/route.c:435-466 | the same |
| `RouteTable.Router.ChangeRouteMetric` | quagga-srx/babeld/route.c:468-494 | the metric fields change unless the kernel refuses |
| `RouteTable.Router.FindBestRoute` | quagga-srx/babeld/route.c:585-607 | the loop finds that route, for every choice of the two parameters |
| `RouteTable.Router.ConsiderRoute` | quagga-srx/babeld/route.c:821-860 | the code does to the list of the destination what `RouteChoice.ConsiderDecides` says, all other destinations untouched |
| `RouteTable.Router.NoteRouteChanged` | quagga-srx/babeld/route.c:943-965 | the same |
| `RouteTable.Router.NoteRouteLost` | quagga-srx/babeld/route.c:968-983 | the same |
| `RouteTable.Router.Update` | quagga-srx/babeld/route.c:670-795 | `update_route` on the whole table: the effect that `RouteFields` describes, and validity if and only if nothing leaks |
| `RouteTable.Router.Flush` | quagga-srx/babeld/route.c:211-260 | `flush_route` keeps the table valid |
| `RouteTable.Router.Retract` | quagga-srx/babeld/route.c:496-500 | so does a retraction |
| `RouteTable.Router.Remetric` | quagga-srx/babeld/route.c:609-632 | so does `update_route_metric` |
| `RouteTable.Router.ExpireSources` | quagga-srx/babeld/source.c:148-166 | drops exactly the stale sources without routes, and none that a route points to |
| `UpdateDecoder.ParseBody` | quagga-srx/babeld/message.c:195-504 | the loop over the TLVs of a packet computes the events of its frames, whatever lies behind the packet and in the locals |
| `UpdateDecoder.ParsePacket` | quagga-srx/babeld/message.c:194-258 | source address, header checks and clipping of the body length, for packets of any length |
| `UpdateDecoder.PacketUnderstood` | quagga-srx/babeld/message.c:532-572 | the header that `flushbuf` puts in front announces the body, so the body is what is understood |
| `UpdateDecoder.TrailerIgnored` | quagga-srx/babeld/message.c:232-240 | octets behind the announced body are looked at only where a message reaches over its end |
| `UpdateMeaning.BodyAnnounced` | quagga-srx/babeld/message.c:232-238 | the body is as long as its header announces, or as what has arrived |
| `UpdateMeaning.LinkLocalOctets` | quagga-srx/babeld/message.c:208-212 | only senders in fe80::/64 are listened to |
| `UpdateDecoder.FramesConcat` | quagga-srx/babeld/message.c:241-258 | a packet put together from messages is taken apart into the same messages |
| `UpdateDecoder.DecodeConcat` | quagga-srx/babeld/message.c:195-504 | and is understood message by message |
| `DecoderLimits.FramesInside` | quagga-srx/babeld/message.c:240-258 | the TLVs of a body are independent of what lies behind it if and only if no TLV reaches beyond it |
| `DecoderLimits.MessagesInside` | quagga-srx/babeld/message.c:240-258 | a body put together from whole messages is such a body |
| `DecoderLimits.OverreadAnnounced` | quagga-srx/babeld/message.c:240-258 | a packet that announces a route to the two octets behind it |
| `DecoderLimits.LookupsAgree` | quagga-srx/babeld/message.c:358-371 | lookup by flags and by address encoding give the same prefix if and only if nothing is omitted, the keys agree, or the prefix is bad either way |
| `DecoderLimits.KeysDiffer` | quagga-srx/babeld/message.c:358-371 | the keys differ exactly when one default is known and the other is not, and just one of encoding and flags is 1 |
| `DecoderLimits.CompressedV4Dropped` | quagga-srx/babeld/message.c:358-371 | a compressed IPv4 update that is dropped although its default is known |
| `DecoderLimits.UnsetPrefixAnnounced` | quagga-srx/babeld/message.c:358-371 | one that is accepted with a default that was never set |
| `DecoderLimits.TlvIgnoresJunk` | quagga-srx/babeld/message.c:195-504 | no other TLV depends on locals that were never set |
| `DecoderLimits.JunkIgnored` | quagga-srx/babeld/message.c:195-504 | nor does a sequence of TLVs without such an update |
| `PrefixBits.MaskPrefixBits` | quagga-srx/babeld/util.c:223-240 | the first bits of a prefix stay, all others are cleared |
| `PrefixBits.CanonicalBits` | quagga-srx/babeld/util.c:223-240 | a prefix is in canonical form if and only if all bits behind its length are 0 |
| `PrefixBits.RefusedExactly` | quagga-srx/babeld/message.c:73-131 | a prefix is refused if and only if its encoding is unknown, its length exceeds the family's, too much is omitted, the default is of the other family, or octets are missing |
| `PrefixBits.NetworkPrefixBits` | quagga-srx/babeld/message.c:73-131 | bit by bit, the prefix comes from the family, the default and the message, and is 0 behind its length |
| `UpdateMeaning.UpdateAnnounces` | quagga-srx/babeld/message.c:344-446 | any update announces the route that its octets spell out, exactly when the prefix can be made out, the router-id is known and there is a next hop; a wildcard retracts everything |
| `UpdateMeaning.UpdateRemembers` | quagga-srx/babeld/message.c:374-391 | an accepted update sets the default prefix and the router-id that its flags name, and nothing else |
| `UpdateMeaning.UpdateForgets` | quagga-srx/babeld/message.c:350-371 | one that is too short or cannot be made out forgets the defaults exactly when it would have set one |
| `UpdateMeaning.RouterIdMeans` | quagga-srx/babeld/message.c:310-318 | a router-id message sets the router-id, or clears it if too short |
| `UpdateMeaning.NextHopMeans` | quagga-srx/babeld/message.c:319-343 | a next-hop message sets the next hop of its family, or clears both |
| `UpdateMeaning.OthersMeanNothing` | quagga-srx/babeld/message.c:259-309 | no other message concerns updates |
| `UpdateEncoder.CanonicalTail` | quagga-srx/babeld/util.c:223-240 | a masked prefix is zero beyond the octets that are sent |
| `UpdateEncoder.V6Decompressed` | quagga-srx/babeld/message.c:73-131 | `network_prefix` undoes the omission of leading octets |
| `UpdateEncoder.V4Decompressed` | quagga-srx/babeld/message.c:73-131 | and rebuilds a v4-mapped prefix |
| `UpdateEncoder.NhParsed` | quagga-srx/babeld/message.c:319-343 | a NH message sets the receiver's IPv4 next hop |
| `UpdateEncoder.IdParsed` | quagga-srx/babeld/message.c:310-318 | a ROUTER_ID message sets the receiver's router-id |
| `UpdateEconomy.MessageOctets` | quagga-srx/babeld/message.c:812-908 | the octets of the next-hop and router-id messages |
| `UpdateEconomy.UpdateOctets` | quagga-srx/babeld/message.c:812-908 | the octets of an update message |
| `UpdateEconomy.MessageLayout` | quagga-srx/babeld/message.c:812-908 | which encoding, flags, length, omitted octets and fields the message of an update has |
| `UpdateEconomy.WildcardOctets` | quagga-srx/babeld/message.c:1179-1205 | the octets of a wildcard retraction |
| `UpdateEconomy.WildcardAppends` | quagga-srx/babeld/message.c:1179-1205 | it is sent when the interface is up, and the router-id counts as unknown after it |
| `UpdateEconomy.SendUpdateAppends` | quagga-srx/babeld/message.c:812-908 | the packet goes out first exactly when it has room for less than 60 octets; then a next hop and a router-id are told only if the receiver does not know them from this packet, and as many leading octets as possible are left out of the prefix |
| `UpdateRoundTrip.SendUpdateTells` | quagga-srx/babeld/message.c:812-908 | one `really_send_update` in any state tells the receiver exactly that update, and the buffer still fits |
| `UpdateRoundTrip.ApplyTells` | quagga-srx/babeld/message.c:532-660 | the same for wildcard retractions, other messages, flushes and address changes |
| `UpdateRoundTrip.UpdatesRoundTrip` | quagga-srx/babeld/message.c:812-908 | for every sequence of operations, parsing the packets with their headers gives back the list of updates, whatever the receiver has in memory, and no packet exceeds the buffer size |
| `SendBuffer.Interface.FlushBuf` | quagga-srx/babeld/message.c:532-572 | the octets handed over are the buffered messages |
| `SendBuffer.Interface.StartMessage` | quagga-srx/babeld/message.c:618-626 | makes room and writes type and length |
| `SendBuffer.Interface.EndMessage` | quagga-srx/babeld/message.c:628-636 | the message is complete and its header is right |
| `SendBuffer.Interface.ReallySendUpdate` | quagga-srx/babeld/message.c:812-908 | the array code does what the sender model does, inside the buffer |
| `TokenBucket.Conserved` | quagga-srx/babeld/message.c:510-530 | packets let through plus tokens left never exceed what time has earned |
| `TokenBucket.RateBounded` | quagga-srx/babeld/message.c:510-530 | at most 200 + 40 per second since creation |
| `TokenBucket.WindowBounded` | quagga-srx/babeld/message.c:510-530 | and in any stretch of a run a bound of the same kind |
| `TokenBucket.RefusedExactly` | quagga-srx/babeld/message.c:510-530 | a packet is refused exactly with no token left and the clock not past the last refill, and what the bucket holds afterwards |
| `TokenBucket.RefusedAfterForty` | quagga-srx/babeld/message.c:510-530 | on a clock that never runs back, nobody is refused before 40 packets went out in the same second |
| `TokenBucket.Limiter.CheckBucket` | quagga-srx/babeld/message.c:510-530 | refusal, tokens and time in terms of the fields and the clock; and the interface carries the bound: packets let through since creation plus tokens never exceed 200 plus 40 for each second the clock moved forward |
| `UpdateQueue.CompareIsTotalOrder` | quagga-srx/babeld/message.c:910-942 | `compare_buffered_updates` is a total order in which only identical entries tie |
| `UpdateQueue.SortedQueue` | quagga-srx/babeld/message.c:910-942 | sorted updates go by router-id, then IPv6 before IPv4, the router's own addresses first, longer prefixes before shorter ones, then by octets |
| `UpdateQueue.FlushUpdates` | quagga-srx/babeld/message.c:944-1068 | the code labels, sorts and sends as `UpdateQueue.FlushSendsOnce` and `UpdateQueue.FlushInOrder` describe |
| `UpdateQueue.FlushSendsOnce` | quagga-srx/babeld/message.c:980-1061 | every message has, from the tables alone, the router-id, seqno and metric of the exported route that takes precedence, else of the installed route, else it retracts; a queued destination gets one message, none when split horizon blocks its route, a retraction for each entry when it has no route |
| `UpdateQueue.FlushInOrder` | quagga-srx/babeld/message.c:988-1061 | messages go out in that order |
| `Sorting.SortSorts` | quagga-srx/babeld/message.c:980-998 | sorting sorts |
| `Sorting.SortedUnique` | quagga-srx/babeld/message.c:980-998 | a total order has one sorted arrangement, so any `qsort` gives it |
| `HashMessage.SliceIsToBeHashed` | srx-crypto-api/srxcryptoapi.c:1590-1694 | every slice of the layout is the octet sequence of section 4.2 of RFC 8205 for its signature |
| `HashMessage.HeaderShape` | srx-crypto-api/srxcryptoapi.c:1464-1505 | bit 0x10 of the flags makes the length two octets wide; where the path begins |
| `HashMessage.BufferStart` | srx-crypto-api/srxcryptoapi.c:1598-1669 | the buffer starts with room for the next target, the first signature and the own hop |
| `HashMessage.LocateBlock` | srx-crypto-api/srxcryptoapi.c:1511-1545 | finds the first block of the wanted algorithm, or reports none, whatever follows the attribute |
| `HashMessage.BlockDecided` | srx-crypto-api/srxcryptoapi.c:1511-1545 | what is found is independent of what follows if and only if the walk does not end on one octet 0 or on the two octets of 1 or 2 |
| `HashMessage.LayoutSize` | srx-crypto-api/srxcryptoapi.c:1590-1596 | the precomputed size is the size of the layout |
| `HashMessage.GenerateHashMessage` | srx-crypto-api/srxcryptoapi.c:1423-1712 | every hash input is a suffix of the one buffer, namely the prescribed octets and a zero for every octet of signatures in excess; all are as prescribed, and the size is used up, if and only if there is one signature for each hop; every signature is where its pointer says; and when each error is returned |
| `HashMessage.ExtraSignature` | srx-crypto-api/srxcryptoapi.c:1590-1596 | a block with a signature too many |
| `HashMessage.GenerateOriginHashMessage` | srx-crypto-api/srxcryptoapi.c:1725-1770 | what an originator signs is the prescribed octet sequence |
| `HashMessage.OriginSignsLastSlice` | srx-crypto-api/srxcryptoapi.c:1725-1770 | it is the last slice of any validator down the path |
| `AsPath.CountHops` | quagga-srx/bgpd/bgp_aspath.c:407-441 | the loops count hops and confederation hops |
| `AsPath.WeedOut` | quagga-srx/bgpd/bgp_aspath.c:274-286 | the in-place loop drops repetitions from a sorted array |
| `AsPath.NormaliseChain` | quagga-srx/bgpd/bgp_aspath.c:251-314 | the in-place algorithm computes the normal form |
| `AsPath.Equal` | quagga-srx/bgpd/bgp_aspath.c:1895-1917 | `aspath_cmp` decides equality |
| `AsPath.NormaliseCounts` | quagga-srx/bgpd/bgp_aspath.c:251-314 | normalisation keeps hop count and confederation count |
| `AsPath.NormaliseAsns` | quagga-srx/bgpd/bgp_aspath.c:251-314 | and the set of AS numbers |
| `AsPath.NormaliseIsNormal` | quagga-srx/bgpd/bgp_aspath.c:251-314 | its result has no adjacent sequences and ascending sets |
| `AsPath.NormaliseIdempotent` | quagga-srx/bgpd/bgp_aspath.c:251-314 | it is idempotent |
| `AsPath.NormaliseKeepsMeaning` | quagga-srx/bgpd/bgp_aspath.c:251-314 | it keeps hops and sets in order |
| `AsPath.NormaliseCanonical` | quagga-srx/bgpd/bgp_aspath.c:245-314 | two paths have the same normal form if and only if they differ only in splitting of sequences and order and repetition in sets |
| `AsPathWire.AssegmentsParse` | quagga-srx/bgpd/bgp_aspath.c:688-782 | the parser loop, with its error cases |
| `AsPathWire.AsnOctets` | quagga-srx/bgpd/bgp_aspath.c:846-862 | an AS number is written as four octets, or as two where 23456 stands for what does not fit |
| `AsPathWire.AspathPut` | quagga-srx/bgpd/bgp_aspath.c:876-947 | the writer loop with its packing, and the count it returns |
| `AsPathWire.ParseExact` | quagga-srx/bgpd/bgp_aspath.c:704-770 | the parser finds segments in exactly the octets that are written for them and rejects everything else |
| `AsPathWire.WireParsed` | quagga-srx/bgpd/bgp_aspath.c:846-947 | what is written for segments of any length is never malformed, and what it is read as |
| `AsPathWire.WireRoundTrip` | quagga-srx/bgpd/bgp_aspath.c:688-782 | it is the normal form, with large AS numbers as AS_TRANS for 2 octets, when no segment is too long |
| `AsPathWire.WireRoundTrip32` | quagga-srx/bgpd/bgp_aspath.c:846-947 | with 4 octets a normal path comes back unchanged |
| `AsPathWire.PutRoundTrip32` | quagga-srx/bgpd/bgp_aspath.c:876-947 | the packing writer on a normal path, read with the length it returns: the path comes back if and only if no sequence has more than 510 AS numbers and no other segment more than 255 |
| `AsPathWire.TooLongIsMalformed` | quagga-srx/bgpd/bgp_aspath.c:895-942 | beyond 510 the reader refuses it |
| `AsPathWire.LongSequenceFails` | quagga-srx/bgpd/bgp_aspath.c:903-909 | such a path |
| `AsPathWire.LongSetFails` | quagga-srx/bgpd/bgp_aspath.c:903-909 | a set of 256 that comes back otherwise |
| `AsPathWire.WireHops` | quagga-srx/bgpd/bgp_aspath.c:846-947 | with either width and any lengths, the hop count comes back if and only if no AS_SET is split, the confederation count if and only if no AS_CONFED_SET is |
| `AsPathWire.CountExact` | quagga-srx/bgpd/bgp_aspath.c:895-942 | the returned count is the octets written if and only if no segment has more than 510 AS numbers |
| `AsPathWire.PackedLengthExact` | quagga-srx/bgpd/bgp_aspath.c:921-938 | when the rewritten length octet of packed segments is right |
| `AsPathWire.UnpackableWritten` | quagga-srx/bgpd/bgp_aspath.c:916-945 | a normal path is never packed |
| `AsPathReconcile.ReconcileAs4` | quagga-srx/bgpd/bgp_aspath.c:1469-1563 | the loops compute the reconciliation |
| `AsPathReconcile.ReconcileTotal` | quagga-srx/bgpd/bgp_aspath.c:1469-1563 | the result is never shorter than AS_PATH, and as long if and only if AS4_PATH is not longer and no AS_CONFED_SEQUENCE is cut |
| `AsPathReconcile.ReconcileHops` | quagga-srx/bgpd/bgp_aspath.c:1482-1500 | its hop count without confederations, in both cases |
| `AsPathReconcile.ReconcileAsns` | quagga-srx/bgpd/bgp_aspath.c:1487-1497 | no AS number of AS4_PATH is lost, nor of AS_PATH when that is the shorter one |
| `AsPathReconcile.As4Recovery` | quagga-srx/bgpd/bgp_aspath.c:1469-1563 | whatever path old speakers put in front, reconciling recovers it followed by the original path |
| `AsPathReconcile.As4RecoveryOverTheWire` | quagga-srx/bgpd/bgp_aspath.c:846-862 | the same from the octets of both attributes; AS4_PATH arrives as it was if and only if no segment is too long |
| `Decimal.NumberRoundTrip` | quagga-srx/bgpd/bgp_aspath.c:1748-1763 | a 32-bit number is read as it was printed |
| `AsPathString.MakeStr` | quagga-srx/bgpd/bgp_aspath.c:501-605 | the printer never cuts anything off and its length stays below the allocated size; unknown types give no text |
| `AsPathString.SegmentText` | quagga-srx/bgpd/bgp_aspath.c:501-605 | what encloses a segment of each type, and how many commas or blanks are between its numbers |
| `AsPathString.PathText` | quagga-srx/bgpd/bgp_aspath.c:501-605 | segments in their order with one blank between |
| `AsPathString.Str2Aspath` | quagga-srx/bgpd/bgp_aspath.c:1771-1835 | the parser loop over tokens |
| `AsPathString.StringRoundTrip` | quagga-srx/bgpd/bgp_aspath.c:1706-1835 | reading back never fails and keeps the meaning; it is the identity if and only if no AS_SEQUENCE is empty or next to another |
| `AsPathString.NormalStringRoundTrip` | quagga-srx/bgpd/bgp_aspath.c:1706-1835 | in particular on normal forms |
| `Community.UniqSortAscends` | quagga-srx/bgpd/bgp_community.c:162-185 | `community_uniq_sort` gives the strictly ascending list of the same values |
| `Community.UniqSortCanonical` | quagga-srx/bgpd/bgp_community.c:162-185 | two lists give the same attribute if and only if they hold the same values |
| `Community.GreedyFindsSubsequence` | quagga-srx/bgpd/bgp_community.c:413-440 | on any lists, the single pass decides whether one is a subsequence of the other |
| `Community.GreedyDecidesInclusion` | quagga-srx/bgpd/bgp_community.c:413-440 | on attributes it decides inclusion of sets |
| `Community.DeleteMultiset` | quagga-srx/bgpd/bgp_community.c:64-112 | on any lists, deletion takes away one copy for each copy listed |
| `Community.DeleteIsMinus` | quagga-srx/bgpd/bgp_community.c:64-112 | without repetitions it is difference with the order kept |
| `Community.DeleteIsDifference` | quagga-srx/bgpd/bgp_community.c:64-112 | on attributes it is set difference and stays ascending |
| `Community.Match` | quagga-srx/bgpd/bgp_community.c:413-440 | the loop, with the cases of missing attributes |
| `Community.Community.Include` | quagga-srx/bgpd/bgp_community.c:133-145 | membership |
| `Community.Community.UniqSorted` | quagga-srx/bgpd/bgp_community.c:162-185 | the two loops build the sorted set in a new attribute |
| `Community.Community.Del` | quagga-srx/bgpd/bgp_community.c:65-97 | the first copy goes and the rest moves up |
| `Community.Community.Delete` | quagga-srx/bgpd/bgp_community.c:99-112 | the loop over the second attribute, and what becomes of an attribute deleted from itself |
| `CommunityString.WordSpelled` | quagga-srx/bgpd/bgp_community.c:254-284 | the well-known communities by name, any other as two numbers of 16 bits |
| `CommunityString.WordsSpelled` | quagga-srx/bgpd/bgp_community.c:240-293 | with one blank between |
| `CommunityString.WordsFit` | quagga-srx/bgpd/bgp_community.c:197-293 | the text and its NUL fit the precomputed length |
| `CommunityString.Com2Str` | quagga-srx/bgpd/bgp_community.c:197-293 | every write stays inside the allocation |
| `CommunityString.ParseCommunity` | quagga-srx/bgpd/bgp_community.c:582-620 | the do-while loop, with the last value added twice |
| `CommunityString.CommunityRoundTrip` | quagga-srx/bgpd/bgp_community.c:484-620 | reading back gives the sorted set; it is the identity if and only if the list is non-empty and strictly ascending |
| `Advertise.CleanOk` | quagga-srx/bgpd/bgp_advertise.c:181-213 | cleaning keeps the invariant of links, FIFOs, lists and counts |
| `Advertise.CleanBaas` | quagga-srx/bgpd/bgp_advertise.c:136-153 | an advertise-attribute is freed exactly when its list has become empty |
| `Advertise.CleanNext` | quagga-srx/bgpd/bgp_advertise.c:181-213 | the candidate returned is alive, with the same live attribute; none is returned only if no other advertisement has it |
| `Advertise.AnnounceOk` | quagga-srx/bgpd/bgp_advertise.c:215-267 | a new update keeps the invariant, shared attribute or not |
| `Advertise.WithdrawOk` | quagga-srx/bgpd/bgp_advertise.c:269-315 | so does a new withdrawal |
| `Advertise.StepOk` | quagga-srx/bgpd/bgp_advertise.c:181-329 | every operation keeps the invariant, does to its destination what it should, and nothing to any other |
| `Advertise.RunFollowsHistory` | quagga-srx/bgpd/bgp_advertise.c:181-329 | after any run, what is sent and waiting for a destination depends on its own operations only |
| `Advertise.RunQueues` | quagga-srx/bgpd/bgp_advertise.c:101-315 | after any run a destination is once on the FIFO its last operation calls for and not on the other, and every interned count is the length of its list |
| `Advertise.RunIsFifo` | quagga-srx/bgpd/bgp_advertise.c:181-329 | after any run both FIFOs hold their destinations in the order of the operations that put them there |
| `AdvertiseLists.Chain.Add` | quagga-srx/bgpd/bgp_advertise.h:106-113 | the links stay those of a doubly linked list with the new head, whatever links the element had |
| `AdvertiseLists.Chain.AddFresh` | quagga-srx/bgpd/bgp_advertise.c:100-108 | the same for `bgp_advertise_add`, which relies on a cleared `prev` |
| `AdvertiseLists.Chain.Delete` | quagga-srx/bgpd/bgp_advertise.h:115-123 | ... and without the element, wherever it was |
| `AdvertisePeer.Peer.Unchain` | quagga-srx/bgpd/bgp_advertise.c:111-121 | taking an advertisement off the list of its attribute, by links, is the deletion of the model and touches no other list |
| `AdvertisePeer.Peer.UninternAttr` | quagga-srx/bgpd/bgp_advertise.c:136-153 | counting down on the object, and leaving the hash when it is freed, represents the model operation; all other attributes and lists stand as before |
| `AdvertisePeer.Peer.InternAttr` | quagga-srx/bgpd/bgp_advertise.c:123-134 | looking up or allocating the attribute and counting it represents the model operation, and the result is the attribute of that number |
| `AdvertisePeer.Peer.AdvertiseClean` | quagga-srx/bgpd/bgp_advertise.c:181-213 | the linked structures represent the cleaned state, which satisfies the invariant, and the pointer returned is the next candidate |
| `AdvertisePeer.Peer.AdjOutSet` | quagga-srx/bgpd/bgp_advertise.c:215-267 | the linked structures represent the state after the operation, which satisfies the invariant, so every count is the length of a well-formed list |
| `AdvertisePeer.Peer.AdjOutUnset` | quagga-srx/bgpd/bgp_advertise.c:269-315 | the same |
| `AdvertisePeer.Peer.AdjOutRemove` | quagga-srx/bgpd/bgp_advertise.c:317-329 | the same |
| `AdvertisePeer.Peer.UpdateSent` | quagga-srx/bgpd/bgp_packet.c:311-327 | the same for an update that has been put in a packet, with the candidate that `bgp_update_packet` goes on with |
| `AdvertisePeer.Peer.AdjOutLookup` | quagga-srx/bgpd/bgp_advertise.c:163-179 | a destination counts as announced if an update is waiting, or nothing is and one was sent |

## Left out

- `HashMessage.GenerateHashMessage`: asks for an attribute whose lengths fit together and whose wanted block has a signature for every hop, because the source reads and writes on without checking; what it then reads and overwrites is not modelled.
- `AsPathWire.AspathPut`: a stream without enough room is not modelled, nor the wrap-around of the 16-bit segment length above 65535 AS numbers.
- `Community.Community.Delete`: an attribute with repeated values, deleted from itself, is not modelled.
- `RouteTable.Router.Update`: requests, retractions and triggered updates that `update_route` also sends are not modelled, nor are the channels of a route, nor a failing allocation of a source; the assertion that bounds a source's 16-bit route count is not modelled because the count is unbounded here.
- `RouteTable.Router.MoveInstalledRoute`: the slot array and the `next` links of routes are sequences, so the walk to the predecessor and the relinking are not modelled.
- `SendBuffer.Interface.FlushBuf`: the flush of queued updates that comes first and the limiter that may drop the packet are modelled on their own (`UpdateQueue`, `TokenBucket`).
- `AdvertisePeer.Peer.AdjOutSet`: locks on peers, nodes and route entries and the reference counts of attributes themselves are not modelled, because `bgp_attr_intern` and the lock functions are elsewhere; pointers are numbers that are never reused.
- `AdvertisePeer.Peer.AdvertiseClean`: the FIFOs of a peer and the list of adjacencies of a node are sequences and maps, since their list macros are not part of this model.
- Other message types of Babel (hello, IHU, requests), acknowledgements and the timers that cause sending.
- The octets of the channel attribute are carried through the codec but not interpreted; a packet dropped by the limiter or by the network is a lost message of `BabelNetwork`.
- `flush_all_routes`, `retract_neighbour_routes` and the other loops of `route.c` over the whole table, which reorder the lists they walk; single steps of them are modelled.
- `xroute.c`, `resend.c`, `neighbour.c`, `kernel.c`, filters and interfaces: they enter as parameters (`Env`, `World`).
- `aspath_aggregate`, `aspath_prepend`, `aspath_filter_exclude` and the other AS path editing functions.
- The hash tables that intern AS paths and communities, and `community_merge`, `community_dup`.
- `bgp_damp.c` (floating-point decay), `bgp_clist.c` (regular expressions), routing policy, the BGP state machine, all terminal commands.
- The cryptography itself, key handling and library loading of the SRx crypto API, and the gRPC client and server.
