/**
 * The peer manager itself: its maps as fields that its methods update, and
 * the loops it runs over them. Each loop is a method over values proved
 * against the function of `PeerModel` that specifies it; each event handler
 * and timer callback is a method of `PeerManager` whose postcondition gives
 * the new maps and the calls issued in terms of those functions.
 *
 * The current time and the current slot are parameters; the answers of the
 * score store, the prioritiser and the relevance check, and the outcomes of
 * the requests the manager sends, are inputs.
 */
module PeerManagement {
  import opened Options
  import opened OrderedMaps
  import opened PeerModel

  /** The loop of `getConnectedPeerIds` over the transport's connection lists. */
  method GetConnectedPeerIds(connections: ConnectionTable) returns (peerIds: seq<PeerId>)
    requires connections.Valid()
    ensures peerIds == ConnectedPeers(connections)
  {
    peerIds := [];
    var ks := connections.keys;
    for i := 0 to |ks|
      invariant peerIds == ConnectedAmong(ks[..i], connections.vals)
    {
      assert ks[..i + 1][..i] == ks[..i];
      var openConnection := FirstOpen(connections.vals[ks[i]]);
      if openConnection.Some? {
        peerIds := peerIds + [openConnection.value.remotePeer];
      }
    }
    assert ks[..|ks|] == ks;
  }

  /**
   * The state of the pruning loop after it has scanned the first `i` keys of
   * `subnets`: the expired ones among them are gone, everything else is as it was.
   */
  ghost predicate PrunedUpTo(subnets: OrderedMap<SubnetId, Slot>, currentSlot: Slot, i: nat, r: OrderedMap<SubnetId, Slot>)
    requires i <= |subnets.keys|
  {
    && r.keys == ActiveAmong(subnets.keys[..i], subnets.vals, currentSlot) + subnets.keys[i..]
    && EntriesFrom(subnets, currentSlot, subnets.keys[i..], r)
  }

  /** The entries of `r` are those of `subnets` that are still to be scanned or have not expired. */
  ghost predicate EntriesFrom(subnets: OrderedMap<SubnetId, Slot>, currentSlot: Slot, pending: seq<SubnetId>,
                              r: OrderedMap<SubnetId, Slot>)
  {
    && (forall k :: k in r.vals <==> k in subnets.vals && (k in pending || subnets.vals[k] >= currentSlot))
    && (forall k | k in r.vals :: r.vals[k] == subnets.vals[k])
  }

  /** Deleting an expired key that is not pending any more keeps the entries right. */
  lemma EntriesAfterDelete(subnets: OrderedMap<SubnetId, Slot>, currentSlot: Slot, k: SubnetId, rest: seq<SubnetId>,
                           r: OrderedMap<SubnetId, Slot>)
    requires EntriesFrom(subnets, currentSlot, [k] + rest, r)
    requires k in subnets.vals && subnets.vals[k] < currentSlot && k !in rest
    ensures EntriesFrom(subnets, currentSlot, rest, r.Delete(k))
  {
    forall j ensures j in [k] + rest <==> j == k || j in rest {
    }
  }

  /** Passing over a key that has not expired keeps the entries right. */
  lemma EntriesAfterKeep(subnets: OrderedMap<SubnetId, Slot>, currentSlot: Slot, k: SubnetId, rest: seq<SubnetId>,
                         r: OrderedMap<SubnetId, Slot>)
    requires EntriesFrom(subnets, currentSlot, [k] + rest, r)
    requires k in subnets.vals && subnets.vals[k] >= currentSlot
    ensures EntriesFrom(subnets, currentSlot, rest, r)
  {
    forall j ensures j in [k] + rest <==> j == k || j in rest {
    }
  }

  /** Scanning a key that has not expired leaves the map as it is. */
  lemma PruneKeep(subnets: OrderedMap<SubnetId, Slot>, currentSlot: Slot, i: nat, r: OrderedMap<SubnetId, Slot>)
    requires i < |subnets.keys| && PrunedUpTo(subnets, currentSlot, i, r)
    requires subnets.keys[i] in subnets.vals && subnets.vals[subnets.keys[i]] >= currentSlot
    ensures PrunedUpTo(subnets, currentSlot, i + 1, r)
  {
    var ks, k := subnets.keys, subnets.keys[i];
    var kept := ActiveAmong(ks[..i], subnets.vals, currentSlot);
    SplitAt(ks, i);
    assert ActiveAmong(ks[..i + 1], subnets.vals, currentSlot) == kept + [k];
    assert r.keys == (kept + [k]) + ks[i + 1..];
    EntriesAfterKeep(subnets, currentSlot, k, ks[i + 1..], r);
  }

  /** Scanning an expired key deletes it, and the rest of the scan no longer sees it. */
  lemma PruneDelete(subnets: OrderedMap<SubnetId, Slot>, currentSlot: Slot, i: nat, r: OrderedMap<SubnetId, Slot>)
    requires i < |subnets.keys| && PrunedUpTo(subnets, currentSlot, i, r)
    requires subnets.keys[i] !in subnets.keys[..i] && subnets.keys[i] !in subnets.keys[i + 1..]
    requires subnets.keys[i] in subnets.vals && subnets.vals[subnets.keys[i]] < currentSlot
    ensures PrunedUpTo(subnets, currentSlot, i + 1, r.Delete(subnets.keys[i]))
  {
    var ks, k := subnets.keys, subnets.keys[i];
    var kept := ActiveAmong(ks[..i], subnets.vals, currentSlot);
    SplitAt(ks, i);
    assert ActiveAmong(ks[..i + 1], subnets.vals, currentSlot) == kept;
    RemoveBetween(kept, k, ks[i + 1..]);
    EntriesAfterDelete(subnets, currentSlot, k, ks[i + 1..], r);
  }

  /** The key the pruning loop is about to visit is still in the map, with its original slot. */
  lemma PruneLookup(subnets: OrderedMap<SubnetId, Slot>, currentSlot: Slot, i: nat, r: OrderedMap<SubnetId, Slot>)
    requires subnets.Valid() && i < |subnets.keys| && PrunedUpTo(subnets, currentSlot, i, r)
    ensures subnets.keys[i] in subnets.vals
    ensures subnets.keys[i] in r.vals && r.vals[subnets.keys[i]] == subnets.vals[subnets.keys[i]]
  {
    SplitAt(subnets.keys, i);
    assert subnets.keys[i] in subnets.keys[i..];
  }

  /** A finished pruning loop has left exactly the pruned map. */
  lemma PruneDone(subnets: OrderedMap<SubnetId, Slot>, currentSlot: Slot, r: OrderedMap<SubnetId, Slot>)
    requires PrunedUpTo(subnets, currentSlot, |subnets.keys|, r)
    ensures r == PruneExpired(subnets, currentSlot)
  {
    var ks := subnets.keys;
    assert ks[..|ks|] == ks && ks[|ks|..] == [];
    assert r.keys == PruneExpired(subnets, currentSlot).keys;
  }

  /** The pruning loop of `requestAttSubnets`: it deletes expired entries while it scans them. */
  method DeleteExpired(subnets: OrderedMap<SubnetId, Slot>, currentSlot: Slot) returns (r: OrderedMap<SubnetId, Slot>)
    requires subnets.Valid()
    ensures r == PruneExpired(subnets, currentSlot)
  {
    r := subnets;
    var ks := subnets.keys;
    assert ks[..0] == [] && ks[0..] == ks;
    for i := 0 to |ks|
      invariant PrunedUpTo(subnets, currentSlot, i, r)
    {
      PruneLookup(subnets, currentSlot, i, r);
      if r.vals[ks[i]] < currentSlot {
        DistinctSplit(ks, i);
        PruneDelete(subnets, currentSlot, i, r);
        r := r.Delete(ks[i]);
      } else {
        PruneKeep(subnets, currentSlot, i, r);
      }
    }
    PruneDone(subnets, currentSlot, r);
  }

  /** The registering loop of `requestAttSubnets`. */
  method SetRequested(subnets: OrderedMap<SubnetId, Slot>, requested: seq<RequestedSubnet>)
    returns (r: OrderedMap<SubnetId, Slot>)
    ensures r == Register(subnets, requested)
  {
    r := subnets;
    for i := 0 to |requested|
      invariant r == Register(subnets, requested[..i])
    {
      assert requested[..i + 1][..i] == requested[..i];
      r := r.Set(requested[i].subnetId, requested[i].toSlot);
    }
    assert requested[..|requested|] == requested;
  }

  /**
   * The timestamps of `r` while a scan at `now` has `pending` left to visit:
   * every visited peer that was overdue is reset to `now`, the rest is as it was.
   */
  ghost predicate TimersFrom(timers: OrderedMap<PeerId, TimeMs>, now: TimeMs, interval: int, pending: seq<PeerId>,
                             r: OrderedMap<PeerId, TimeMs>)
  {
    && (forall p :: p in r.vals <==> p in timers.vals)
    && (forall p | p in r.vals ::
          r.vals[p] == if p !in pending && Overdue(timers.vals[p], now, interval) then now else timers.vals[p])
  }

  /** Visiting `p`: it is reset if it is overdue, and nothing else changes. */
  lemma TimersStep(timers: OrderedMap<PeerId, TimeMs>, now: TimeMs, interval: int, p: PeerId, rest: seq<PeerId>,
                   r: OrderedMap<PeerId, TimeMs>)
    requires TimersFrom(timers, now, interval, [p] + rest, r)
    requires p in timers.vals && p !in rest
    ensures p in r.vals && r.vals[p] == timers.vals[p]
    ensures TimersFrom(timers, now, interval, rest, if Overdue(timers.vals[p], now, interval) then r.Set(p, now) else r)
  {
    forall j ensures j in [p] + rest <==> j == p || j in rest {
    }
  }

  /** A finished scan has left exactly the refreshed timer map. */
  lemma TimersDone(timers: OrderedMap<PeerId, TimeMs>, now: TimeMs, interval: int, r: OrderedMap<PeerId, TimeMs>)
    requires r.keys == timers.keys && TimersFrom(timers, now, interval, [], r)
    ensures r == Refresh(timers, now, interval)
  {
  }

  /** The state of a timer scan after it has visited the first `i` keys of `timers`. */
  ghost predicate ScannedUpTo(timers: OrderedMap<PeerId, TimeMs>, now: TimeMs, interval: int, i: nat,
                              r: OrderedMap<PeerId, TimeMs>, due: seq<PeerId>)
    requires i <= |timers.keys|
  {
    && r.keys == timers.keys
    && TimersFrom(timers, now, interval, timers.keys[i..], r)
    && due == DueAmong(timers.keys[..i], timers.vals, now, interval)
  }

  lemma ScanStep(timers: OrderedMap<PeerId, TimeMs>, now: TimeMs, interval: int, i: nat,
                 r: OrderedMap<PeerId, TimeMs>, due: seq<PeerId>)
    requires i < |timers.keys| && ScannedUpTo(timers, now, interval, i, r, due)
    requires timers.keys[i] in timers.vals && timers.keys[i] !in timers.keys[i + 1..]
    ensures var p := timers.keys[i];
            && p in r.vals && r.vals[p] == timers.vals[p]
            && if Overdue(timers.vals[p], now, interval)
               then ScannedUpTo(timers, now, interval, i + 1, r.Set(p, now), due + [p])
               else ScannedUpTo(timers, now, interval, i + 1, r, due)
  {
    var ks, p := timers.keys, timers.keys[i];
    assert ks[..i + 1] == ks[..i] + [p];
    assert ks[i..] == [p] + ks[i + 1..];
    TimersStep(timers, now, interval, p, ks[i + 1..], r);
  }

  /**
   * One scan loop of `pingAndStatusTimeouts`: it resets each overdue
   * timestamp to `now` while it scans, and collects the overdue peers.
   */
  method ResetOverdue(timers: OrderedMap<PeerId, TimeMs>, now: TimeMs, interval: int)
    returns (r: OrderedMap<PeerId, TimeMs>, due: seq<PeerId>)
    requires timers.Valid()
    ensures r == Refresh(timers, now, interval)
    ensures due == Due(timers, now, interval)
  {
    r := timers;
    due := [];
    var ks := timers.keys;
    assert ks[..0] == [] && ks[0..] == ks;
    for i := 0 to |ks|
      invariant ScannedUpTo(timers, now, interval, i, r, due)
    {
      var p := ks[i];
      DistinctSplit(ks, i);
      ScanStep(timers, now, interval, i, r, due);
      if now - r.vals[p] > interval {
        r := r.Set(p, now);
        due := due + [p];
      }
    }
    assert ks[..|ks|] == ks && ks[|ks|..] == [];
    TimersDone(timers, now, interval, r);
  }

  /** The loop of `reStatusPeers` that sets each peer's status timestamp to zero. */
  method ResetStatusTimers(timers: OrderedMap<PeerId, TimeMs>, peers: seq<PeerId>) returns (r: OrderedMap<PeerId, TimeMs>)
    ensures r == ResetToZero(timers, peers)
  {
    r := timers;
    for i := 0 to |peers|
      invariant r == ResetToZero(timers, peers[..i])
    {
      assert peers[..i + 1][..i] == peers[..i];
      r := r.Set(peers[i], 0);
    }
    assert peers[..|peers|] == peers;
  }

  /** The scoring loop of `heartbeat`: goodbyes for banned and low-score peers, and the healthy ones collected. */
  method ClassifyByScore(peers: seq<PeerId>, env: Collaborators) returns (actions: seq<Action>, healthy: seq<PeerId>)
    ensures actions == ScoreActions(peers, env)
    ensures healthy == HealthyAmong(peers, env)
  {
    actions, healthy := [], [];
    for i := 0 to |peers|
      invariant actions == ScoreActions(peers[..i], env)
      invariant healthy == HealthyAmong(peers[..i], env)
    {
      var peer := peers[i];
      assert peers[..i + 1][..i] == peers[..i];
      match env.scoreState(peer)
      case Banned =>
        actions := actions + [SendGoodbye(peer, GoodbyeReason.Banned)];
      case Disconnected =>
        actions := actions + [SendGoodbye(peer, ScoreTooLow)];
      case Healthy =>
        healthy := healthy + [peer];
    }
    assert peers[..|peers|] == peers;
  }

  /** The loop of `heartbeat` that collects the subnets still needed at `currentSlot`. */
  method CollectActiveSubnets(subnets: OrderedMap<SubnetId, Slot>, currentSlot: Slot) returns (activeSubnetIds: seq<SubnetId>)
    requires subnets.Valid()
    ensures activeSubnetIds == ActiveSubnets(subnets, currentSlot)
  {
    activeSubnetIds := [];
    var ks := subnets.keys;
    for i := 0 to |ks|
      invariant activeSubnetIds == ActiveAmong(ks[..i], subnets.vals, currentSlot)
    {
      SplitAt(ks, i);
      if subnets.vals[ks[i]] >= currentSlot {
        activeSubnetIds := activeSubnetIds + [ks[i]];
      }
    }
    assert ks[..|ks|] == ks;
  }

  /** `goodbyeAndDisconnect(peer, reason)` for each of `peers`, in order. */
  method GoodbyeAll(peers: seq<PeerId>, reason: GoodbyeReason) returns (actions: seq<Action>)
    ensures actions == GoodbyeEach(peers, reason)
  {
    actions := [];
    for i := 0 to |peers|
      invariant actions == GoodbyeEach(peers[..i], reason)
    {
      assert peers[..i + 1][..i] == peers[..i];
      actions := actions + [SendGoodbye(peers[i], reason)];
    }
    assert peers[..|peers|] == peers;
  }

  class PeerManager {
    /** Peers awaiting a ping, with the time of their last ping. */
    var peersToPing: OrderedMap<PeerId, TimeMs>
    /** Peers awaiting a status request, with the time of their last status. */
    var peersToStatus: OrderedMap<PeerId, TimeMs>
    /** Subnets, with the slot until which each is needed. */
    var subnets: OrderedMap<SubnetId, Slot>
    /** The metadata section of the peer metadata store. */
    var metadata: map<PeerId, Metadata>
    /** The status section of the peer metadata store. */
    var statuses: map<PeerId, Status>
    /** The time between two status requests to the same peer: one epoch. */
    const statusIntervalMs: nat
    const opts: PeerManagerOpts

    ghost predicate Valid()
      reads this
    {
      peersToPing.Valid() && peersToStatus.Valid() && subnets.Valid()
    }

    constructor (slotsPerEpoch: nat, secondsPerSlot: nat, opts: PeerManagerOpts,
                 metadata: map<PeerId, Metadata>, statuses: map<PeerId, Status>)
      ensures Valid()
      ensures peersToPing == Empty() && peersToStatus == Empty() && subnets == Empty()
      ensures this.metadata == metadata && this.statuses == statuses
      ensures statusIntervalMs == slotsPerEpoch * secondsPerSlot * 1000
      ensures this.opts == opts
    {
      peersToPing, peersToStatus, subnets := Empty(), Empty(), Empty();
      this.metadata, this.statuses := metadata, statuses;
      statusIntervalMs := slotsPerEpoch * secondsPerSlot * 1000;
      this.opts := opts;
    }

    /** Prunes expired subnets, registers the requested ones, then runs the heartbeat. */
    method RequestAttSubnets(requested: seq<RequestedSubnet>, currentSlot: Slot, connections: ConnectionTable,
                             env: Collaborators) returns (actions: seq<Action>)
      requires Valid() && connections.Valid()
      modifies this`subnets
      ensures Valid()
      ensures subnets == RequestAttSubnetsState(old(subnets), requested, currentSlot)
      ensures actions == HeartbeatActions(ConnectedPeers(connections), subnets, currentSlot, metadata, opts, env)
    {
      var pruned := DeleteExpired(subnets, currentSlot);
      subnets := SetRequested(pruned, requested);
      actions := Heartbeat(connections, currentSlot, env);
    }

    /** Makes each of `peers` due for a status request, then runs the ping and status scan. */
    method ReStatusPeers(peers: seq<PeerId>, now: TimeMs) returns (actions: seq<Action>)
      requires Valid()
      modifies this`peersToPing, this`peersToStatus
      ensures Valid()
      ensures peersToPing == Refresh(old(peersToPing), now, PING_INTERVAL_MS)
      ensures peersToStatus == Refresh(ResetToZero(old(peersToStatus), peers), now, statusIntervalMs)
      ensures actions == TimeoutActions(old(peersToPing), ResetToZero(old(peersToStatus), peers), now, statusIntervalMs)
    {
      peersToStatus := ResetStatusTimers(peersToStatus, peers);
      actions := PingAndStatusTimeouts(now);
    }

    /** A ping from `peer`: its ping timer restarts, and stale metadata is asked for. */
    method OnPing(peer: PeerId, seqNumber: nat, now: TimeMs) returns (actions: seq<Action>)
      requires Valid()
      modifies this`peersToPing
      ensures Valid()
      ensures peersToPing == old(peersToPing).Set(peer, now)
      ensures actions == if MetadataStale(metadata, peer, seqNumber) then [RequestMetadata(peer)] else []
    {
      peersToPing := peersToPing.Set(peer, now);
      actions := [];
      if peer !in metadata || metadata[peer].seqNumber < seqNumber {
        actions := [RequestMetadata(peer)];
      }
    }

    /** Metadata from `peer` is stored whatever its sequence number. */
    method OnMetadata(peer: PeerId, md: Metadata)
      modifies this`metadata
      ensures metadata == old(metadata)[peer := md]
    {
      metadata := metadata[peer := md];
    }

    /** The end of a metadata request: an answer is stored, a failure changes nothing. */
    method OnMetadataResponse(peer: PeerId, response: Option<Metadata>)
      modifies this`metadata
      ensures response.Some? ==> metadata == old(metadata)[peer := response.value]
      ensures response.None? ==> metadata == old(metadata)
    {
      if response.Some? {
        OnMetadata(peer, response.value);
      }
    }

    /** A goodbye from `peer`: the manager hangs up without answering. */
    method OnGoodbye(peer: PeerId, goodbyeReason: nat) returns (actions: seq<Action>)
      ensures actions == [Disconnect(peer)]
    {
      actions := [Disconnect(peer)];
    }

    /**
     * A status from `peer`: its status timer restarts; an irrelevant peer is
     * told goodbye, a relevant one has its status stored and is announced.
     */
    method OnStatus(peer: PeerId, status: Status, now: TimeMs, relevant: bool) returns (actions: seq<Action>)
      requires Valid()
      modifies this`peersToStatus, this`statuses
      ensures Valid()
      ensures peersToStatus == old(peersToStatus).Set(peer, now)
      ensures statuses == if relevant then old(statuses)[peer := status] else old(statuses)
      ensures actions == StatusActions(peer, status, relevant)
    {
      peersToStatus := peersToStatus.Set(peer, now);
      if !relevant {
        actions := [SendGoodbye(peer, IrrelevantNetwork)];
        return;
      }
      statuses := statuses[peer := status];
      actions := [EmitPeerConnected(peer, status)];
    }

    /** The end of one status request of a batch: a failure hangs up on that peer alone. */
    method OnStatusResponse(peer: PeerId, response: Option<Status>, now: TimeMs, relevant: bool)
      returns (actions: seq<Action>)
      requires Valid()
      modifies this`peersToStatus, this`statuses
      ensures Valid()
      ensures response.None? ==> actions == [Disconnect(peer)]
                                 && peersToStatus == old(peersToStatus) && statuses == old(statuses)
      ensures response.Some? ==> actions == StatusActions(peer, response.value, relevant)
                                 && peersToStatus == old(peersToStatus).Set(peer, now)
                                 && statuses == if relevant then old(statuses)[peer := response.value] else old(statuses)
    {
      if response.None? {
        actions := [Disconnect(peer)];
      } else {
        actions := OnStatus(peer, response.value, now, relevant);
      }
    }

    /**
     * The end of a goodbye sent by `goodbyeAndDisconnect`: a goodbye that
     * failed is followed by a hang-up, a delivered one by nothing.
     */
    method OnGoodbyeResult(peer: PeerId, delivered: bool) returns (actions: seq<Action>)
      ensures Disconnect(peer) in actions <==> !delivered
      ensures |actions| == if delivered then 0 else 1
      ensures forall a | a in actions :: a == Disconnect(peer)
    {
      actions := [];
      if !delivered {
        actions := [Disconnect(peer)];
      }
    }

    /** The periodic scan: pings overdue peers one by one and status-requests overdue peers as one batch. */
    method PingAndStatusTimeouts(now: TimeMs) returns (actions: seq<Action>)
      requires Valid()
      modifies this`peersToPing, this`peersToStatus
      ensures Valid()
      ensures peersToPing == Refresh(old(peersToPing), now, PING_INTERVAL_MS)
      ensures peersToStatus == Refresh(old(peersToStatus), now, statusIntervalMs)
      ensures actions == TimeoutActions(old(peersToPing), old(peersToStatus), now, statusIntervalMs)
    {
      var pinged, statused;
      peersToPing, pinged := ResetOverdue(peersToPing, now, PING_INTERVAL_MS);
      actions := PingActions(pinged);
      peersToStatus, statused := ResetOverdue(peersToStatus, now, statusIntervalMs);
      if |statused| > 0 {
        actions := actions + [SendStatus(statused)];
      }
    }

    /**
     * The heartbeat: goodbyes by score state, the active subnets, and the
     * prioritiser's decisions acted on. It changes none of the manager's maps.
     */
    method Heartbeat(connections: ConnectionTable, currentSlot: Slot, env: Collaborators) returns (actions: seq<Action>)
      requires Valid() && connections.Valid()
      ensures actions == HeartbeatActions(ConnectedPeers(connections), subnets, currentSlot, metadata, opts, env)
    {
      var connectedPeers := GetConnectedPeerIds(connections);
      var scoreActions, connectedHealthPeers := ClassifyByScore(connectedPeers, env);
      var activeSubnetIds := CollectActiveSubnets(subnets, currentSlot);
      var pr := env.prioritizePeers(PeerInfos(connectedPeers, metadata, env.rpcScore), activeSubnetIds, opts);
      var discovery := [];
      if |pr.discv5Queries| > 0 {
        discovery := discovery + [DiscoverSubnetPeers(pr.discv5Queries)];
      }
      if pr.peersToConnect > 0 {
        discovery := discovery + [DiscoverPeers(pr.peersToConnect)];
      }
      var evictions := GoodbyeAll(pr.peersToDisconnect, TooManyPeers);
      assert pr == Prioritized(connectedPeers, subnets, currentSlot, metadata, opts, env);
      assert discovery == DiscoveryActions(pr);
      actions := scoreActions + discovery + evictions;
    }

    /** A new connection: the peer is due for a status request and a ping at once. */
    method OnLibp2pPeerConnect(peer: PeerId)
      requires Valid()
      modifies this`peersToPing, this`peersToStatus
      ensures Valid()
      ensures peersToStatus == old(peersToStatus).Set(peer, 0)
      ensures peersToPing == old(peersToPing).Set(peer, 0)
    {
      peersToStatus := peersToStatus.Set(peer, 0);
      peersToPing := peersToPing.Set(peer, 0);
    }

    /** A closed connection: the peer's timers are dropped and its departure announced. */
    method OnLibp2pPeerDisconnect(peer: PeerId) returns (actions: seq<Action>)
      requires Valid()
      modifies this`peersToPing, this`peersToStatus
      ensures Valid()
      ensures peersToPing == old(peersToPing).Delete(peer)
      ensures peersToStatus == old(peersToStatus).Delete(peer)
      ensures actions == [EmitPeerDisconnected(peer)]
    {
      peersToPing := peersToPing.Delete(peer);
      peersToStatus := peersToStatus.Delete(peer);
      actions := [EmitPeerDisconnected(peer)];
    }

    /** Shutdown: goodbye with reason client-shutdown to every connected peer. */
    method GoodbyeAndDisconnectAllPeers(connections: ConnectionTable) returns (actions: seq<Action>)
      requires connections.Valid()
      ensures actions == ShutdownActions(connections)
    {
      var peers := GetConnectedPeerIds(connections);
      actions := GoodbyeAll(peers, ClientShutdown);
    }
  }
}
