# Peer manager and execution-payload processing of a beacon node, in Dafny

This project models two parts of the Lodestar Ethereum consensus client.

**The peer manager** (`PeerManager` in `packages/lodestar/src/network/peers/peerManager.ts`)
keeps three JavaScript `Map`s:
- the peers awaiting a ping, with the time of their last ping;
- the peers awaiting a status request, with the time of their last status;
- the attestation subnets the node needs peers for, with the slot until which each is needed.

It reacts to transport events: connect, disconnect, ping, goodbye and status.
Two timers drive it: the ping-and-status scan and the heartbeat.
Upstream callers drive it too: subnet requests, re-status requests and shutdown.
In response it updates its maps and issues outbound calls.

The peer-manager model has three modules, besides `Options`, which holds the option type all modules share:
- `OrderedMaps` models a JavaScript `Map` with keys compared by value, insertion order included, because every scan loop visits entries in that order.
- `PeerModel` gives each operation as a function from the old maps to the new maps and the calls issued. Calls are recorded as a sequence of `Action`s. Its lemmas state what the operations mean.
- `PeerManagement` holds the `PeerManager` class. Its fields are those three maps, which its methods update in place. It also has `metadata` and `statuses` fields. These stand for the metadata and status sections of the peer metadata store, which belongs to a collaborator and not to the manager; the manager's own handlers write them. The loops of the source (pruning while iterating, scanning and resetting timestamps, collecting connected peers, healthy peers and active subnets) are methods proved equal to the functions of `PeerModel`.

**Execution-payload processing** (`processExecutionPayload` in
`packages/beacon-state-transition/src/merge/block/processExecutionPayload.ts`)
implements `process_execution_payload` of the Merge (Bellatrix) beacon-chain specification.
It runs four checks in order:
1. the parent hash, only once the merge is complete;
2. the `random` value against the RANDAO mix of the current shuffling epoch;
3. the timestamp against `compute_timestamp_at_slot`;
4. the execution engine's verdict, only when an engine is given.

If all four pass, it caches the payload's header in the state.

Module `ExecutionPayloads` gives the checks as a pure function and the state as a class with a method proved against that function.

Behaviours of the code worth knowing:
- The heartbeat does not prune expired subnets. It only skips them when it collects the active ones (`peerManager.ts:311-316`). Pruning happens only in `requestAttSubnets`.
- The prioritiser is given every connected peer, not only the healthy ones (`peerManager.ts:318-323`). So a banned peer can be told goodbye twice in one heartbeat (`PeerModel.BannedPeerMayBeEvictedTwice`).
- The timer maps can hold peers that are not connected. Only the disconnect event removes an entry (`peerManager.ts:404-405`). `reStatusPeers`, `onPing` and `onStatus` add an entry for any peer (`peerManager.ts:172`, `peerManager.ts:181`, `peerManager.ts:215`). So a peer re-statused after its disconnect is status-requested once every status interval, until the peer connects and disconnects again (`PeerModel.DisconnectedPeerReenters`).

## Model

| member | source | states |
|---|---|---|
| OrderedMaps.OrderedMap.Set | packages/lodestar/src/network/peers/peerManager.ts:160-162 | `Map.set` binds the key to the value and changes no other entry. It keeps a present key's place, appends a new key, and preserves well-formedness. |
| OrderedMaps.OrderedMap.Delete | packages/lodestar/src/network/peers/peerManager.ts:404-405 | `Map.delete` removes the key and changes no other entry. The remaining keys keep their order, and deleting an absent key changes nothing. It preserves well-formedness. |
| OrderedMaps.RemoveAt | packages/lodestar/src/network/peers/peerManager.ts:404-405 | Deleting a key that occurs once closes the gap at its place; the other keys keep their order. |
| OrderedMaps.Empty | packages/lodestar/src/network/peers/peerManager.ts:76-82 | A new `Map` is well-formed and has no entries. |
| OrderedMaps.SetThenDelete | packages/lodestar/src/network/peers/peerManager.ts:385-386 | Setting a key that is not present and then deleting it gives back the same map, order included. So a connect followed by a disconnect of a new peer leaves both timer maps as they were. |
| PeerModel.GoodbyeEach | packages/lodestar/src/network/peers/peerManager.ts:337-339 | Each listed peer gets one goodbye with the given reason, in list order. No other peer gets one, and nothing else is issued at once. |
| PeerModel.GoodbyeEachMembers | packages/lodestar/src/network/peers/peerManager.ts:337-339 | Exactly the listed peers get a goodbye, all with the one reason, and nothing else is issued. |
| PeerModel.FirstOpen | packages/lodestar/src/network/peers/peerManager.ts:420 | It finds nothing exactly when no connection is open. Otherwise it finds the first open connection of the list. |
| PeerModel.ConnectedAmongExact | packages/lodestar/src/network/peers/peerManager.ts:417-426 | Proved by induction: a peer is collected exactly when it has an open connection. No peer is collected twice. |
| PeerModel.ConnectedPeersExact | packages/lodestar/src/network/peers/peerManager.ts:417-426 | `getConnectedPeerIds` lists each peer with at least one open connection once, and no other peer. |
| PeerModel.ActiveAmong | packages/lodestar/src/network/peers/peerManager.ts:311-316 | The subnets collected are exactly the scanned ones whose slot is not behind the current slot. |
| PeerModel.ActiveAmongDistinct | packages/lodestar/src/network/peers/peerManager.ts:311-316 | Proved by induction: scanning keys without repetitions collects no subnet twice. |
| PeerModel.ActiveSubnetsExact | packages/lodestar/src/network/peers/peerManager.ts:310-316 | The heartbeat's active subnets are exactly the entries with `toSlot >= currentSlot`, each once. |
| PeerModel.PruneExpired | packages/lodestar/src/network/peers/peerManager.ts:150-154 | After pruning, a subnet is present exactly when it was present and not expired. Its slot is unchanged. |
| PeerModel.LastRequest | packages/lodestar/src/network/peers/peerManager.ts:160-162 | It finds no request exactly when the subnet is never requested. Otherwise it gives a request for the subnet with no later one. |
| PeerModel.Register | packages/lodestar/src/network/peers/peerManager.ts:160-162 | After registering, a subnet is present when it was present or was requested. A requested subnet holds the slot of its last request, and the others are unchanged. |
| PeerModel.RequestAttSubnetsEffect | packages/lodestar/src/network/peers/peerManager.ts:150-162 | After `requestAttSubnets`, a requested subnet is needed until the slot of its last request. An unrequested subnet survives, unchanged, exactly when it had not expired. |
| PeerModel.RequestAttSubnetsIdempotent | packages/lodestar/src/network/peers/peerManager.ts:150-162 | Repeating the same request at the same slot leaves the same entries. |
| PeerModel.RequestAttSubnetsReordersExpired | packages/lodestar/src/network/peers/peerManager.ts:150-162 | Counterexample to idempotence of the order: with requests [(1,5),(2,10)] at slot 7, a second request moves subnet 1 behind subnet 2. |
| PeerModel.DueAmong | packages/lodestar/src/network/peers/peerManager.ts:345-364 | The peers found overdue are exactly the scanned peers whose last timestamp is more than the interval old. |
| PeerModel.Refresh | packages/lodestar/src/network/peers/peerManager.ts:345-364 | A scan keeps the same peers in the same order, and preserves well-formedness. |
| PeerModel.PingActions | packages/lodestar/src/network/peers/peerManager.ts:345-350 | One ping per overdue peer, in scan order. |
| PeerModel.TimeoutActionsExact | packages/lodestar/src/network/peers/peerManager.ts:342-369 | A scan pings exactly the peers whose last ping is older than 15 s. It sends a status request to exactly the peers whose last status is older than the status interval, as a single batch, and none when there is no such peer. |
| PeerModel.TimeoutsIdempotent | packages/lodestar/src/network/peers/peerManager.ts:345-364 | A second scan at the same time issues no ping and no status request. |
| PeerModel.AtMostOnePingPerInterval | packages/lodestar/src/network/peers/peerManager.ts:345-350 | A peer pinged by a scan at time t is pinged by none of the scans that follow it, however many, at times no more than 15 s after t. |
| PeerModel.ScansKeepRecent | packages/lodestar/src/network/peers/peerManager.ts:345-350 | Proved by induction: scans at times no more than the interval after a peer's last ping time leave that time unchanged. |
| PeerModel.ConnectThenScan | packages/lodestar/src/network/peers/peerManager.ts:384-386 | After a connect has set both timers of a peer to 0, the next scan pings the peer and includes it in its status batch. |
| PeerModel.ResetToZero | packages/lodestar/src/network/peers/peerManager.ts:171-172 | The loop at 172 sets each given peer's status time to 0, adding absent peers, and leaves every other entry as it was. The scan at 173 then sets those peers' times to `now` (`PeerManagement.PeerManager.ReStatusPeers`). |
| PeerModel.DisconnectedPeerReenters | packages/lodestar/src/network/peers/peerManager.ts:171-181 | After a disconnect removes a peer's timers, re-statusing it puts it back in the status map, due at the next scan and still present after it. A ping puts it back in the ping map. |
| PeerModel.ReStatusForcesStatus | packages/lodestar/src/network/peers/peerManager.ts:171-173 | The scan `reStatusPeers` triggers sends a status request to every given peer. |
| PeerModel.PingDefersScheduledPing | packages/lodestar/src/network/peers/peerManager.ts:179-187 | A peer that pinged us is not pinged by a scan within the ping interval. |
| PeerModel.StatusActions | packages/lodestar/src/network/peers/peerManager.ts:218-234 | A relevant peer is announced as connected and nothing else happens. An irrelevant peer is sent one goodbye with reason irrelevant-network and is not announced. |
| PeerModel.ScoreGoodbye | packages/lodestar/src/network/peers/peerManager.ts:298-307 | Only the reasons banned and score-too-low come from the score state. |
| PeerModel.ScoreActions | packages/lodestar/src/network/peers/peerManager.ts:296-308 | The scoring loop says goodbye with reason banned exactly to banned peers and with reason score-too-low exactly to peers to disconnect. It makes no other call. |
| PeerModel.HealthyAmong | packages/lodestar/src/network/peers/peerManager.ts:296-308 | The healthy peers collected are exactly the scanned peers in state Healthy. |
| PeerModel.PeerInfos | packages/lodestar/src/network/peers/peerManager.ts:319-323 | The prioritiser is told about every connected peer, in order. |
| PeerModel.HeartbeatGoodbyes | packages/lodestar/src/network/peers/peerManager.ts:281-340 | A heartbeat says goodbye with reason banned exactly to banned connected peers, with score-too-low exactly to peers to disconnect, and with too-many-peers exactly to the prioritiser's evictions. It never uses the other reasons. |
| PeerModel.HeartbeatDiscovery | packages/lodestar/src/network/peers/peerManager.ts:328-335 | Subnet discovery is asked exactly when the prioritiser names some subnet, with those subnets. Peer discovery is asked exactly when the deficit is positive, with that count. |
| PeerModel.BannedPeerMayBeEvictedTwice | packages/lodestar/src/network/peers/peerManager.ts:296-339 | A banned peer that the prioritiser also evicts is told goodbye twice: reason banned and reason too-many-peers. |
| PeerModel.ShutdownActions | packages/lodestar/src/network/peers/peerManager.ts:138-143 | On shutdown, exactly the connected peers are told goodbye with reason client-shutdown, and no other call is made at once. |
| PeerManagement.GetConnectedPeerIds | packages/lodestar/src/network/peers/peerManager.ts:417-426 | The loop returns `PeerModel.ConnectedPeers` of the connection table. |
| PeerManagement.DeleteExpired | packages/lodestar/src/network/peers/peerManager.ts:150-154 | Deleting expired subnets while iterating over the map leaves exactly `PeerModel.PruneExpired`, order included. |
| PeerManagement.SetRequested | packages/lodestar/src/network/peers/peerManager.ts:160-162 | The registering loop leaves exactly `PeerModel.Register`. |
| PeerManagement.ResetOverdue | packages/lodestar/src/network/peers/peerManager.ts:345-364 | One scan loop leaves exactly `PeerModel.Refresh` of the timers and collects exactly `PeerModel.Due`. |
| PeerManagement.ResetStatusTimers | packages/lodestar/src/network/peers/peerManager.ts:172 | The loop leaves exactly `PeerModel.ResetToZero`. |
| PeerManagement.ClassifyByScore | packages/lodestar/src/network/peers/peerManager.ts:296-308 | The scoring loop issues exactly `PeerModel.ScoreActions` and collects exactly `PeerModel.HealthyAmong`. |
| PeerManagement.CollectActiveSubnets | packages/lodestar/src/network/peers/peerManager.ts:311-316 | The collecting loop returns exactly `PeerModel.ActiveSubnets`. |
| PeerManagement.GoodbyeAll | packages/lodestar/src/network/peers/peerManager.ts:337-339 | The eviction loop issues exactly `PeerModel.GoodbyeEach`. |
| PeerManagement.PeerManager.constructor | packages/lodestar/src/network/peers/peerManager.ts:111 | The status interval is one epoch in milliseconds. All three maps start empty. |
| PeerManagement.PeerManager.RequestAttSubnets | packages/lodestar/src/network/peers/peerManager.ts:148-166 | The subnet map becomes the pruned-then-registered map. The calls are those of a heartbeat on the new map. |
| PeerManagement.PeerManager.ReStatusPeers | packages/lodestar/src/network/peers/peerManager.ts:171-174 | The given peers' status times become 0, then a scan runs. The calls are the scan's calls on the reset map. |
| PeerManagement.PeerManager.OnPing | packages/lodestar/src/network/peers/peerManager.ts:179-188 | The ping time becomes `now`. Metadata is requested exactly when none is stored or the stored sequence number is lower. |
| PeerManagement.PeerManager.OnMetadata | packages/lodestar/src/network/peers/peerManager.ts:193-197 | The received metadata is stored unconditionally. |
| PeerManagement.PeerManager.OnMetadataResponse | packages/lodestar/src/network/peers/peerManager.ts:237-245 | A metadata answer is stored. A failed request changes nothing. |
| PeerManagement.PeerManager.OnGoodbye | packages/lodestar/src/network/peers/peerManager.ts:202-209 | A received goodbye is answered only by hanging up. |
| PeerManagement.PeerManager.OnStatus | packages/lodestar/src/network/peers/peerManager.ts:214-235 | The status time becomes `now`. The status is stored only for a relevant peer. The calls are `PeerModel.StatusActions`. |
| PeerManagement.PeerManager.OnStatusResponse | packages/lodestar/src/network/peers/peerManager.ts:251-259 | A failed status request hangs up on that peer and changes no map. An answer is handled as a received status: the status time becomes `now`, the status is stored exactly when the peer is relevant, and the calls are `PeerModel.StatusActions`. |
| PeerManagement.PeerManager.OnGoodbyeResult | packages/lodestar/src/network/peers/peerManager.ts:436-443 | When a goodbye has settled, a single hang-up of that peer is issued exactly when the goodbye failed, and nothing else. |
| PeerManagement.PeerManager.PingAndStatusTimeouts | packages/lodestar/src/network/peers/peerManager.ts:342-369 | Both timer maps become their refreshed versions. The calls are `PeerModel.TimeoutActions` of the old maps. |
| PeerManagement.PeerManager.Heartbeat | packages/lodestar/src/network/peers/peerManager.ts:281-340 | The heartbeat changes no map. Its calls are `PeerModel.HeartbeatActions` of the connected peers. |
| PeerManagement.PeerManager.OnLibp2pPeerConnect | packages/lodestar/src/network/peers/peerManager.ts:378-392 | Both timers of the new peer become 0. Nothing else changes. |
| PeerManagement.PeerManager.OnLibp2pPeerDisconnect | packages/lodestar/src/network/peers/peerManager.ts:397-412 | Both timers of the peer are removed, and its departure is announced. |
| PeerManagement.PeerManager.GoodbyeAndDisconnectAllPeers | packages/lodestar/src/network/peers/peerManager.ts:138-143 | The calls are exactly `PeerModel.ShutdownActions`. |
| ExecutionPayloads.FirstFailure | packages/beacon-state-transition/src/merge/block/processExecutionPayload.ts:15-51 | The payload passes exactly when all four checks pass. The parent hash is checked only once the merge is complete, and the engine only when given. Each error is reported exactly when its check fails and every earlier check passes. |
| ExecutionPayloads.HeaderForgetsOnlyTransactions | packages/beacon-state-transition/src/merge/block/processExecutionPayload.ts:54-69 | Two payloads get the same header exactly when they agree on every field but the transactions, and their transactions have the same root. |
| ExecutionPayloads.AcceptedPayloadIsParent | packages/beacon-state-transition/src/merge/block/processExecutionPayload.ts:15-69 | After a payload is cached, a later payload checked with the merge complete passes only if its parent hash is the cached block hash. Otherwise it fails with the parent-hash error. |
| ExecutionPayloads.BeaconState.ProcessExecutionPayload | packages/beacon-state-transition/src/merge/block/processExecutionPayload.ts:8-70 | The error reported is `FirstFailure` on the state's values. On rejection the header is unchanged. On acceptance it is the payload's header, with `transactionsRoot` the root of the transactions. The new header then records the old header's block hash as its parent once the merge is complete, the RANDAO mix of the current shuffling epoch, and the timestamp of the state's slot. |

## Left out

- Registration of the event handlers, the two intervals, and the abort signal (`peerManager.ts:117-135`): each handler and timer callback is a method that callers invoke.
- Asynchrony: each outbound call is recorded as an `Action` in the order it is issued. What happens when a call settles is a separate method taking the outcome as input: the metadata and status responses, and the result of a goodbye. So the hang-up after a failed goodbye is issued by `PeerManagement.PeerManager.OnGoodbyeResult`, not by the operation that sent the goodbye. Interleavings of these continuations are not modelled. `onStatus` awaits `assertPeerRelevance` (`peerManager.ts:219`) between setting the status time (`peerManager.ts:215`) and storing and announcing the status (`peerManager.ts:231-234`). `PeerManagement.PeerManager.OnStatus` does both in one step, so a disconnect in between, and an announcement after the peer's departure, are not modelled. The answer to a scheduled ping is discarded by `requestPing` (`peerManager.ts:267-274`), although the comment at `peerManager.ts:343-344` says the peer's sequence number is processed; so there is no ping continuation.
- Failure of a hang-up is not modelled: it is only logged.
- Peer identity: a `PeerId` is a string, and the timer maps compare keys by value. In the source they are keyed by `PeerId` objects, which a JavaScript `Map` compares by reference. So the model assumes every event about one peer carries the same `PeerId` object. Two objects for one peer, which would give two timer entries, two pings and an entry a disconnect leaves behind, are not modelled.
- `PeerModel.ConnectedPeersExact` and `PeerModel.ConnectedAmongExact`: they assume that the transport lists every connection under its own remote peer (`PeerModel.WellKeyed`). The transport's connection table is not part of this model, so this is an assumption, not a proved fact.
- `PeerModel.AtMostOnePingPerInterval`: it covers scans with no event for the peer between them. A connect sets the peer's ping time to 0 (`peerManager.ts:385-386`), which makes it due again at once.
- Time: `Date.now()` is one `now` per call. The source reads the clock anew inside each scan iteration; the model uses the same instant for the whole scan.
- `PeerManagement.PeerManager.OnLibp2pPeerConnect` and `PeerManagement.PeerManager.OnLibp2pPeerDisconnect`: the metrics update and logging are not modelled.
- Clock slot: the current slot is a parameter. The source reads `chain.clock.currentSlot` anew on every iteration of the pruning and collecting loops (`peerManager.ts:151`, `peerManager.ts:313`); the model uses one slot for the whole loop. The chain clock is not part of this model.
- Score store, relevance check and prioritiser: `getScoreState`, `assertPeerRelevance` and `prioritizePeers` are not part of this model. Their answers are inputs, so nothing is proved about the prioritiser's own policy.
- Discovery internals: not modelled; discovery calls are recorded as actions.
- Logging, metrics and the goodbye-code descriptions are not modelled.
- Numeric goodbye codes: these live in `constants.ts`, which is not part of this model. Goodbye reasons are an enumeration.
- `PeerModel.RequestAttSubnetsIdempotent`: it covers the entries of the subnet map and not their insertion order. The order is not idempotent, as `PeerModel.RequestAttSubnetsReordersExpired` shows.
- Arithmetic width: JavaScript numbers are modelled as unbounded integers, so precision loss above 2^53 is not modelled. This covers the status interval, timestamps, and the timestamp check `genesisTime + slot * SECONDS_PER_SLOT`.
- `isMergeComplete`, `getRandaoMix`, SSZ `hashTreeRoot` and the execution engine: their source is not part of this model. Their answers are inputs. `ExecutionPayloads.BeaconState.ProcessExecutionPayload` holds only the fields it reads and the header it writes.
- Error messages of the thrown errors: not modelled. A rejection is returned as a `PayloadError` value.
