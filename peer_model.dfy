/**
 * The bookkeeping of the beacon node's peer manager, as values.
 *
 * The manager keeps three insertion-ordered maps (peer to last ping time,
 * peer to last status time, subnet to the slot until which it is needed) and
 * reacts to events by updating them and by issuing outbound calls. Each
 * outbound call is recorded as an `Action`; each operation is given here by a
 * function from the old maps (and the collaborators' answers) to the new maps
 * and the actions. The class `PeerManagement.PeerManager` is proved against
 * these functions, and the lemmas below state what they mean.
 */
module PeerModel {
  import opened Options
  import opened OrderedMaps

  type PeerId = string
  type SubnetId = nat
  type Slot = nat
  /** Milliseconds, as `Date.now()` gives them. */
  type TimeMs = int

  /** Time between two pings of the same peer. */
  const PING_INTERVAL_MS: int := 15 * 1000

  /** The score store's classification of a peer. */
  datatype ScoreState = Healthy | Disconnected | Banned

  /** The reasons the manager gives when it says goodbye. */
  datatype GoodbyeReason = ClientShutdown | IrrelevantNetwork | TooManyPeers | ScoreTooLow | Banned

  /** What a peer announces about itself: a sequence number and its attestation subnets. */
  datatype Metadata = Metadata(seqNumber: nat, attnets: seq<bool>)

  /** A peer's chain status; the manager stores it and passes it on without looking inside. */
  datatype Status = Status(forkDigest: seq<bv8>, finalizedRoot: seq<bv8>, finalizedEpoch: nat,
                           headRoot: seq<bv8>, headSlot: Slot)

  datatype ConnectionStatus = Open | Closing | Closed
  datatype Connection = Connection(remotePeer: PeerId, status: ConnectionStatus)

  /** The transport's connections, listed per peer. */
  type ConnectionTable = OrderedMap<PeerId, seq<Connection>>

  datatype RequestedSubnet = RequestedSubnet(subnetId: SubnetId, toSlot: Slot)

  datatype PeerManagerOpts = PeerManagerOpts(targetPeers: nat, maxPeers: nat)

  /** What the prioritiser is told about one peer. */
  datatype PeerInfo = PeerInfo(id: PeerId, attnets: seq<bool>, score: real)

  /** What the prioritiser decides. */
  datatype Prioritization = Prioritization(peersToDisconnect: seq<PeerId>, discv5Queries: seq<SubnetId>,
                                           peersToConnect: int)

  /**
   * The answers of the collaborators the heartbeat consults: the score store,
   * the stored numeric scores and the prioritiser.
   */
  datatype Collaborators = Collaborators(
    scoreState: PeerId -> ScoreState,
    rpcScore: map<PeerId, real>,
    prioritizePeers: (seq<PeerInfo>, seq<SubnetId>, PeerManagerOpts) -> Prioritization)

  /** An outbound call the manager issues, or an event it emits. */
  datatype Action =
    | SendPing(peer: PeerId)
    | SendStatus(peers: seq<PeerId>)
    | RequestMetadata(peer: PeerId)
    | SendGoodbye(peer: PeerId, reason: GoodbyeReason)
    | Disconnect(peer: PeerId)
    | DiscoverSubnetPeers(subnets: seq<SubnetId>)
    | DiscoverPeers(count: int)
    | EmitPeerConnected(peer: PeerId, status: Status)
    | EmitPeerDisconnected(peer: PeerId)

  // ---------------------------------------------------------------------------
  // Goodbye

  // `goodbyeAndDisconnect` issues the goodbye at once; the hang-up that
  // follows a failed goodbye is issued only when the failure arrives, by
  // `PeerManagement.PeerManager.OnGoodbyeResult`.

  /** The goodbyes that `goodbyeAndDisconnect` issues with one reason for each of `peers`, in order. */
  function GoodbyeEach(peers: seq<PeerId>, reason: GoodbyeReason): (r: seq<Action>)
    ensures |r| == |peers| && forall i | 0 <= i < |peers| :: r[i] == SendGoodbye(peers[i], reason)
  {
    if peers == [] then []
    else GoodbyeEach(peers[..|peers| - 1], reason) + [SendGoodbye(peers[|peers| - 1], reason)]
  }

  /** Exactly the listed peers get a goodbye, all with the one reason, and nothing else is issued. */
  lemma GoodbyeEachMembers(peers: seq<PeerId>, reason: GoodbyeReason)
    ensures forall p :: SendGoodbye(p, reason) in GoodbyeEach(peers, reason) <==> p in peers
    ensures forall a | a in GoodbyeEach(peers, reason) :: a.SendGoodbye? && a.reason == reason
  {
    var r := GoodbyeEach(peers, reason);
    forall p | p in peers ensures SendGoodbye(p, reason) in r {
      var i :| 0 <= i < |peers| && peers[i] == p;
      assert r[i] == SendGoodbye(p, reason);
    }
  }

  // ---------------------------------------------------------------------------
  // Connected peers

  /** `connections.find(c => c.stat.status === "open")`. */
  function FirstOpen(cs: seq<Connection>): (r: Option<Connection>)
    ensures r.None? <==> forall c | c in cs :: c.status != Open
    ensures r.Some? ==> r.value.status == Open
                        && exists i | 0 <= i < |cs| :: cs[i] == r.value && forall j | 0 <= j < i :: cs[j].status != Open
  {
    if cs == [] then None
    else if cs[0].status == Open then Some(cs[0])
    else FirstOpen(cs[1..])
  }

  /** The remote peer of the first open connection of each of `ks`, in order. */
  function ConnectedAmong(ks: seq<PeerId>, table: map<PeerId, seq<Connection>>): seq<PeerId> {
    if ks == [] then []
    else
      var k := ks[|ks| - 1];
      ConnectedAmong(ks[..|ks| - 1], table)
      + if k in table && FirstOpen(table[k]).Some? then [FirstOpen(table[k]).value.remotePeer] else []
  }

  /** `getConnectedPeerIds`: peers with at least one open connection. */
  function ConnectedPeers(table: ConnectionTable): seq<PeerId> {
    ConnectedAmong(table.keys, table.vals)
  }

  /** Every connection is listed under its own remote peer, as the transport keeps them. */
  ghost predicate WellKeyed(table: map<PeerId, seq<Connection>>) {
    forall k, c | k in table && c in table[k] :: c.remotePeer == k
  }

  lemma {:induction false} ConnectedAmongExact(ks: seq<PeerId>, table: map<PeerId, seq<Connection>>)
    requires Distinct(ks) && WellKeyed(table)
    ensures Distinct(ConnectedAmong(ks, table))
    ensures forall p :: p in ConnectedAmong(ks, table) <==>
                        p in ks && p in table && exists c | c in table[p] :: c.status == Open
  {
    if ks != [] {
      var init, k := ks[..|ks| - 1], ks[|ks| - 1];
      assert Distinct(init);
      ConnectedAmongExact(init, table);
      assert ks == init + [k];
      assert k !in init;
      if k in table && FirstOpen(table[k]).Some? {
        assert FirstOpen(table[k]).value.remotePeer == k;
        DistinctSnoc(ConnectedAmong(init, table), k);
      }
    }
  }

  /**
   * Each peer with an open connection is reported once, and no other peer:
   * several connections to one peer collapse into one entry.
   */
  lemma ConnectedPeersExact(table: ConnectionTable)
    requires table.Valid() && WellKeyed(table.vals)
    ensures Distinct(ConnectedPeers(table))
    ensures forall p :: p in ConnectedPeers(table) <==>
                        p in table.vals && exists c | c in table.vals[p] :: c.status == Open
  {
    ConnectedAmongExact(table.keys, table.vals);
  }

  lemma HeadIn<T>(s: seq<T>)
    requires s != []
    ensures s[0] in s
  {
  }

  lemma InConcat3<T>(a: seq<T>, b: seq<T>, c: seq<T>, x: T)
    ensures x in a + b + c <==> x in a || x in b || x in c
  {
  }

  lemma DistinctSnoc<T>(s: seq<T>, x: T)
    requires Distinct(s) && x !in s
    ensures Distinct(s + [x])
  {
  }

  // ---------------------------------------------------------------------------
  // Subnet requests

  /** The keys among `ks` whose slot is not behind `currentSlot`, in order. */
  function ActiveAmong(ks: seq<SubnetId>, subnets: map<SubnetId, Slot>, currentSlot: Slot): (r: seq<SubnetId>)
    ensures forall k :: k in r <==> k in ks && k in subnets && subnets[k] >= currentSlot
  {
    if ks == [] then []
    else
      var init, k := ks[..|ks| - 1], ks[|ks| - 1];
      ActiveAmong(init, subnets, currentSlot) + if k in subnets && subnets[k] >= currentSlot then [k] else []
  }

  /** Scanning keys without repetitions collects no subnet twice. */
  lemma {:induction false} ActiveAmongDistinct(ks: seq<SubnetId>, subnets: map<SubnetId, Slot>, currentSlot: Slot)
    ensures Distinct(ks) ==> Distinct(ActiveAmong(ks, subnets, currentSlot))
  {
    if ks != [] && Distinct(ks) {
      var init, k := ks[..|ks| - 1], ks[|ks| - 1];
      assert ks == init + [k];
      assert Distinct(init) && k !in init;
      ActiveAmongDistinct(init, subnets, currentSlot);
      if k in subnets && subnets[k] >= currentSlot {
        DistinctSnoc(ActiveAmong(init, subnets, currentSlot), k);
      }
    }
  }

  /** The subnets `heartbeat` collects as active at `currentSlot`, in map order. */
  function ActiveSubnets(subnets: OrderedMap<SubnetId, Slot>, currentSlot: Slot): seq<SubnetId> {
    ActiveAmong(subnets.keys, subnets.vals, currentSlot)
  }

  /** The map left by the pruning loop of `requestAttSubnets`. */
  function PruneExpired(subnets: OrderedMap<SubnetId, Slot>, currentSlot: Slot): (r: OrderedMap<SubnetId, Slot>)
    ensures subnets.Valid() ==> r.Valid()
    ensures forall k :: k in r.vals <==> k in subnets.vals && subnets.vals[k] >= currentSlot
    ensures forall k | k in r.vals :: r.vals[k] == subnets.vals[k]
  {
    ActiveAmongDistinct(subnets.keys, subnets.vals, currentSlot);
    OrderedMap(ActiveAmong(subnets.keys, subnets.vals, currentSlot),
               map k | k in subnets.vals && subnets.vals[k] >= currentSlot :: subnets.vals[k])
  }

  /** The slot of the last request for subnet `k` in `reqs`, if any. */
  function LastRequest(reqs: seq<RequestedSubnet>, k: SubnetId): (r: Option<Slot>)
    ensures r.None? <==> forall j | 0 <= j < |reqs| :: reqs[j].subnetId != k
    ensures r.Some? ==> exists j | 0 <= j < |reqs| ::
                          reqs[j] == RequestedSubnet(k, r.value)
                          && forall i | j < i < |reqs| :: reqs[i].subnetId != k
  {
    if reqs == [] then None
    else if reqs[|reqs| - 1].subnetId == k then Some(reqs[|reqs| - 1].toSlot)
    else LastRequest(reqs[..|reqs| - 1], k)
  }

  /** The map left by the registering loop of `requestAttSubnets`. */
  function Register(subnets: OrderedMap<SubnetId, Slot>, reqs: seq<RequestedSubnet>): (r: OrderedMap<SubnetId, Slot>)
    ensures subnets.Valid() ==> r.Valid()
    ensures forall k :: k in r.vals <==> k in subnets.vals || LastRequest(reqs, k).Some?
    ensures forall k | k in r.vals :: r.vals[k] == match LastRequest(reqs, k)
                                                   case Some(s) => s
                                                   case None => subnets.vals[k]
  {
    if reqs == [] then subnets
    else
      var last := reqs[|reqs| - 1];
      Register(subnets, reqs[..|reqs| - 1]).Set(last.subnetId, last.toSlot)
  }

  /** `subnets` after `requestAttSubnets(reqs)` at `currentSlot`. */
  function RequestAttSubnetsState(subnets: OrderedMap<SubnetId, Slot>, reqs: seq<RequestedSubnet>, currentSlot: Slot)
    : OrderedMap<SubnetId, Slot>
  {
    Register(PruneExpired(subnets, currentSlot), reqs)
  }

  /**
   * After `requestAttSubnets`, a requested subnet is needed until the slot of
   * its last request; any other subnet survives, unchanged, only if it was
   * not yet expired.
   */
  lemma RequestAttSubnetsEffect(subnets: OrderedMap<SubnetId, Slot>, reqs: seq<RequestedSubnet>,
                                currentSlot: Slot, k: SubnetId)
    ensures var r := RequestAttSubnetsState(subnets, reqs, currentSlot);
            && ((exists j | 0 <= j < |reqs| :: reqs[j].subnetId == k) ==>
                  k in r.vals && r.vals[k] == LastRequest(reqs, k).value)
            && ((forall j | 0 <= j < |reqs| :: reqs[j].subnetId != k) ==>
                  (k in r.vals <==> k in subnets.vals && subnets.vals[k] >= currentSlot)
                  && (k in r.vals ==> r.vals[k] == subnets.vals[k]))
  {
  }

  /** Requesting the same subnets twice at one slot leaves the same entries as requesting them once. */
  lemma RequestAttSubnetsIdempotent(subnets: OrderedMap<SubnetId, Slot>, reqs: seq<RequestedSubnet>, currentSlot: Slot)
    ensures RequestAttSubnetsState(RequestAttSubnetsState(subnets, reqs, currentSlot), reqs, currentSlot).vals
         == RequestAttSubnetsState(subnets, reqs, currentSlot).vals
  {
    var once := RequestAttSubnetsState(subnets, reqs, currentSlot);
    var twice := RequestAttSubnetsState(once, reqs, currentSlot);
    forall k ensures (k in twice.vals <==> k in once.vals) && (k in once.vals ==> twice.vals[k] == once.vals[k]) {
      var pruned := PruneExpired(once, currentSlot);
      if LastRequest(reqs, k).None? && k in once.vals {
        assert once.vals[k] == PruneExpired(subnets, currentSlot).vals[k] >= currentSlot;
        assert k in pruned.vals;
      }
    }
  }

  /**
   * The insertion order, unlike the entries, can change on a repeated request:
   * a re-requested subnet whose slot has passed is pruned and appended again.
   */
  lemma RequestAttSubnetsReordersExpired()
    ensures var reqs := [RequestedSubnet(1, 5), RequestedSubnet(2, 10)];
            var once := RequestAttSubnetsState(Empty(), reqs, 7);
            && once.keys == [1, 2]
            && RequestAttSubnetsState(once, reqs, 7).keys == [2, 1]
  {
    var reqs := [RequestedSubnet(1, 5), RequestedSubnet(2, 10)];
    var once := OrderedMap([1, 2], map[1 := 5, 2 := 10]);
    var pruned := OrderedMap([2], map[2 := 10]);
    ExampleFirstRequest(reqs, once);
    ExamplePrune(once, pruned);
    ExampleSecondRequest(reqs, pruned);
  }

  lemma ExampleFirstRequest(reqs: seq<RequestedSubnet>, once: OrderedMap<SubnetId, Slot>)
    requires reqs == [RequestedSubnet(1, 5), RequestedSubnet(2, 10)]
    requires once == OrderedMap([1, 2], map[1 := 5, 2 := 10])
    ensures RequestAttSubnetsState(Empty(), reqs, 7) == once
  {
    var empty: OrderedMap<SubnetId, Slot> := Empty();
    assert PruneExpired(empty, 7) == empty by {
      assert ActiveAmong([], empty.vals, 7) == [];
    }
    var one := OrderedMap([1], map[1 := 5]);
    assert Register(empty, reqs[..1]) == one by {
      assert reqs[..1] == [RequestedSubnet(1, 5)] && reqs[..1][..0] == [];
      assert Register(empty, reqs[..1]) == Register(empty, []).Set(1, 5);
    }
    assert Register(empty, reqs) == one.Set(2, 10);
  }

  lemma ExamplePrune(once: OrderedMap<SubnetId, Slot>, pruned: OrderedMap<SubnetId, Slot>)
    requires once == OrderedMap([1, 2], map[1 := 5, 2 := 10])
    requires pruned == OrderedMap([2], map[2 := 10])
    ensures PruneExpired(once, 7) == pruned
  {
    assert once.keys[..1] == [1] && once.keys[..1][..0] == [];
    assert ActiveAmong([], once.vals, 7) == [];
    assert ActiveAmong([1], once.vals, 7) == [];
    assert ActiveAmong([1, 2], once.vals, 7) == [2];
  }

  lemma ExampleSecondRequest(reqs: seq<RequestedSubnet>, pruned: OrderedMap<SubnetId, Slot>)
    requires reqs == [RequestedSubnet(1, 5), RequestedSubnet(2, 10)]
    requires pruned == OrderedMap([2], map[2 := 10])
    ensures Register(pruned, reqs).keys == [2, 1]
  {
    assert reqs[..1] == [RequestedSubnet(1, 5)] && reqs[..1][..0] == [];
    assert Register(pruned, reqs[..1]) == pruned.Set(1, 5);
    assert pruned.Set(1, 5).keys == [2, 1];
  }

  // ---------------------------------------------------------------------------
  // Ping and status scheduling

  /** A timestamp that is older than `interval` at time `now`. */
  predicate Overdue(last: TimeMs, now: TimeMs, interval: int) {
    now - last > interval
  }

  /** The peers among `ks` whose timestamp is overdue, in order. */
  function DueAmong(ks: seq<PeerId>, last: map<PeerId, TimeMs>, now: TimeMs, interval: int): (r: seq<PeerId>)
    ensures forall p :: p in r <==> p in ks && p in last && Overdue(last[p], now, interval)
  {
    if ks == [] then []
    else
      var p := ks[|ks| - 1];
      DueAmong(ks[..|ks| - 1], last, now, interval) + if p in last && Overdue(last[p], now, interval) then [p] else []
  }

  /** The peers of a timer map that a scan at `now` finds overdue, in map order. */
  function Due(timers: OrderedMap<PeerId, TimeMs>, now: TimeMs, interval: int): seq<PeerId> {
    DueAmong(timers.keys, timers.vals, now, interval)
  }

  /** A timer map after a scan at `now` has reset every overdue timestamp to `now`. */
  function Refresh(timers: OrderedMap<PeerId, TimeMs>, now: TimeMs, interval: int): (r: OrderedMap<PeerId, TimeMs>)
    ensures timers.Valid() ==> r.Valid()
    ensures r.keys == timers.keys
    ensures forall p :: p in r.vals <==> p in timers.vals
  {
    OrderedMap(timers.keys,
               map p | p in timers.vals :: if Overdue(timers.vals[p], now, interval) then now else timers.vals[p])
  }

  function PingActions(peers: seq<PeerId>): (r: seq<Action>)
    ensures |r| == |peers| && forall i | 0 <= i < |peers| :: r[i] == SendPing(peers[i])
  {
    if peers == [] then [] else PingActions(peers[..|peers| - 1]) + [SendPing(peers[|peers| - 1])]
  }

  /** One status request for the whole batch, and none for an empty batch. */
  function StatusBatch(peers: seq<PeerId>): seq<Action> {
    if peers == [] then [] else [SendStatus(peers)]
  }

  /** The calls `pingAndStatusTimeouts` issues at `now`. */
  function TimeoutActions(toPing: OrderedMap<PeerId, TimeMs>, toStatus: OrderedMap<PeerId, TimeMs>, now: TimeMs,
                          statusIntervalMs: int): seq<Action>
  {
    PingActions(Due(toPing, now, PING_INTERVAL_MS)) + StatusBatch(Due(toStatus, now, statusIntervalMs))
  }

  /**
   * A scan pings exactly the peers whose last ping is older than the ping
   * interval, and sends one status request, to exactly the peers whose last
   * status is older than the status interval, when there is any.
   */
  lemma TimeoutActionsExact(toPing: OrderedMap<PeerId, TimeMs>, toStatus: OrderedMap<PeerId, TimeMs>, now: TimeMs,
                            statusIntervalMs: int)
    requires toPing.Valid() && toStatus.Valid()
    ensures forall p :: SendPing(p) in TimeoutActions(toPing, toStatus, now, statusIntervalMs) <==>
                        p in toPing.vals && Overdue(toPing.vals[p], now, PING_INTERVAL_MS)
    ensures forall batch :: SendStatus(batch) in TimeoutActions(toPing, toStatus, now, statusIntervalMs) <==>
                            batch == Due(toStatus, now, statusIntervalMs) && batch != []
    ensures forall p :: p in Due(toStatus, now, statusIntervalMs) <==>
                        p in toStatus.vals && Overdue(toStatus.vals[p], now, statusIntervalMs)
  {
    var pings := PingActions(Due(toPing, now, PING_INTERVAL_MS));
    var statuses := StatusBatch(Due(toStatus, now, statusIntervalMs));
    forall p ensures SendPing(p) in pings + statuses <==> p in Due(toPing, now, PING_INTERVAL_MS) {
      if SendPing(p) in pings {
        var i :| 0 <= i < |pings| && pings[i] == SendPing(p);
        assert Due(toPing, now, PING_INTERVAL_MS)[i] == p;
      }
      if p in Due(toPing, now, PING_INTERVAL_MS) {
        var i :| 0 <= i < |Due(toPing, now, PING_INTERVAL_MS)| && Due(toPing, now, PING_INTERVAL_MS)[i] == p;
        assert pings[i] == SendPing(p);
      }
    }
  }

  /** A second scan at the same time issues no ping and no status request. */
  lemma TimeoutsIdempotent(toPing: OrderedMap<PeerId, TimeMs>, toStatus: OrderedMap<PeerId, TimeMs>, now: TimeMs,
                           statusIntervalMs: nat)
    ensures TimeoutActions(Refresh(toPing, now, PING_INTERVAL_MS), Refresh(toStatus, now, statusIntervalMs),
                           now, statusIntervalMs) == []
  {
    var pinged := Due(Refresh(toPing, now, PING_INTERVAL_MS), now, PING_INTERVAL_MS);
    var statused := Due(Refresh(toStatus, now, statusIntervalMs), now, statusIntervalMs);
    if pinged != [] {
      HeadIn(pinged);
      assert false;
    }
    if statused != [] {
      HeadIn(statused);
      assert false;
    }
  }

  /** A timer map after scans at each of `times`, in order. */
  function ScanAll(timers: OrderedMap<PeerId, TimeMs>, times: seq<TimeMs>, interval: int): OrderedMap<PeerId, TimeMs> {
    if times == [] then timers
    else Refresh(ScanAll(timers, times[..|times| - 1], interval), times[|times| - 1], interval)
  }

  /** Scans that come no later than `interval` after `t` leave a timestamp `t` as it is. */
  lemma {:induction false} ScansKeepRecent(timers: OrderedMap<PeerId, TimeMs>, p: PeerId, t: TimeMs,
                                           times: seq<TimeMs>, interval: int)
    requires p in timers.vals && timers.vals[p] == t
    requires forall i | 0 <= i < |times| :: times[i] - t <= interval
    ensures p in ScanAll(timers, times, interval).vals && ScanAll(timers, times, interval).vals[p] == t
  {
    if times != [] {
      ScansKeepRecent(timers, p, t, times[..|times| - 1], interval);
    }
  }

  /**
   * A peer pinged by a scan at `t1` is pinged by none of the scans that
   * follow it within the ping interval, however many there are.
   */
  lemma AtMostOnePingPerInterval(toPing: OrderedMap<PeerId, TimeMs>, p: PeerId, t1: TimeMs, later: seq<TimeMs>)
    requires p in Due(toPing, t1, PING_INTERVAL_MS)
    requires forall i | 0 <= i < |later| :: later[i] - t1 <= PING_INTERVAL_MS
    ensures forall i | 0 <= i < |later| ::
              p !in Due(ScanAll(Refresh(toPing, t1, PING_INTERVAL_MS), later[..i], PING_INTERVAL_MS),
                        later[i], PING_INTERVAL_MS)
  {
    var first := Refresh(toPing, t1, PING_INTERVAL_MS);
    forall i | 0 <= i < |later|
      ensures p !in Due(ScanAll(first, later[..i], PING_INTERVAL_MS), later[i], PING_INTERVAL_MS)
    {
      ScansKeepRecent(first, p, t1, later[..i], PING_INTERVAL_MS);
    }
  }

  // ---------------------------------------------------------------------------
  // Connect, re-status, ping, metadata, status

  /**
   * After a connect has set both timers of `p` to zero, the next scan pings
   * `p` and puts it in its status batch.
   */
  lemma ConnectThenScan(toPing: OrderedMap<PeerId, TimeMs>, toStatus: OrderedMap<PeerId, TimeMs>, p: PeerId,
                        now: TimeMs, statusIntervalMs: int)
    requires toPing.Valid() && toStatus.Valid()
    requires now > PING_INTERVAL_MS && now > statusIntervalMs
    ensures var actions := TimeoutActions(toPing.Set(p, 0), toStatus.Set(p, 0), now, statusIntervalMs);
            && SendPing(p) in actions
            && exists batch :: SendStatus(batch) in actions && p in batch
  {
    TimeoutActionsExact(toPing.Set(p, 0), toStatus.Set(p, 0), now, statusIntervalMs);
    var batch := Due(toStatus.Set(p, 0), now, statusIntervalMs);
    assert p in batch;
  }

  /** The status-timer map after `reStatusPeers` has set each of `peers` to zero. */
  function ResetToZero(timers: OrderedMap<PeerId, TimeMs>, peers: seq<PeerId>): (r: OrderedMap<PeerId, TimeMs>)
    ensures timers.Valid() ==> r.Valid()
    ensures forall p :: p in r.vals <==> p in timers.vals || p in peers
    ensures forall p | p in r.vals :: r.vals[p] == if p in peers then 0 else timers.vals[p]
  {
    if peers == [] then timers
    else ResetToZero(timers, peers[..|peers| - 1]).Set(peers[|peers| - 1], 0)
  }

  /** After `reStatusPeers`, the scan it triggers sends a status request to every one of the peers. */
  lemma ReStatusForcesStatus(timers: OrderedMap<PeerId, TimeMs>, peers: seq<PeerId>, now: TimeMs, interval: int)
    requires timers.Valid() && now > interval
    ensures forall p | p in peers :: p in Due(ResetToZero(timers, peers), now, interval)
  {
  }

  /**
   * The timer maps can hold peers that are not connected: only a disconnect
   * removes an entry, while `reStatusPeers` and `onPing` add one for any
   * peer. A peer re-statused after its disconnect is status-requested by the
   * next scan and stays in the map after it; a ping after the disconnect
   * brings it back into the ping map.
   */
  lemma DisconnectedPeerReenters(toPing: OrderedMap<PeerId, TimeMs>, toStatus: OrderedMap<PeerId, TimeMs>, p: PeerId,
                                 now: TimeMs, statusIntervalMs: int)
    requires toPing.Valid() && toStatus.Valid() && now > statusIntervalMs
    ensures p !in toStatus.Delete(p).vals && p !in toPing.Delete(p).vals
    ensures var reStatused := ResetToZero(toStatus.Delete(p), [p]);
            && p in Due(reStatused, now, statusIntervalMs)
            && p in Refresh(reStatused, now, statusIntervalMs).vals
    ensures p in toPing.Delete(p).Set(p, now).vals
  {
  }

  /** `onPing` asks for metadata when none is stored or the stored sequence number is older. */
  predicate MetadataStale(metadata: map<PeerId, Metadata>, peer: PeerId, seqNumber: nat) {
    peer !in metadata || metadata[peer].seqNumber < seqNumber
  }

  /** A peer that pinged us at `now` is not pinged by a scan within the ping interval. */
  lemma PingDefersScheduledPing(toPing: OrderedMap<PeerId, TimeMs>, peer: PeerId, now: TimeMs, later: TimeMs)
    requires later - now <= PING_INTERVAL_MS
    ensures peer !in Due(toPing.Set(peer, now), later, PING_INTERVAL_MS)
  {
  }

  /** The calls `onStatus` makes once the relevance check has answered. */
  function StatusActions(peer: PeerId, status: Status, relevant: bool): (r: seq<Action>)
    ensures relevant ==> r == [EmitPeerConnected(peer, status)]
    ensures !relevant ==> r == [SendGoodbye(peer, IrrelevantNetwork)]
  {
    if relevant then [EmitPeerConnected(peer, status)] else [SendGoodbye(peer, IrrelevantNetwork)]
  }

  // ---------------------------------------------------------------------------
  // Heartbeat

  /** The goodbye the heartbeat gives a peer of each score state. */
  function ScoreGoodbye(s: ScoreState): (r: Option<GoodbyeReason>)
    ensures r.Some? ==> r.value == GoodbyeReason.Banned || r.value == ScoreTooLow
  {
    match s
    case Banned => Some(GoodbyeReason.Banned)
    case Disconnected => Some(ScoreTooLow)
    case Healthy => None
  }

  /** The goodbyes of the heartbeat's scoring loop. */
  function ScoreActions(peers: seq<PeerId>, env: Collaborators): (r: seq<Action>)
    ensures forall p, reason :: SendGoodbye(p, reason) in r <==>
                                p in peers && ScoreGoodbye(env.scoreState(p)) == Some(reason)
    ensures forall a | a in r :: a.SendGoodbye?
  {
    if peers == [] then []
    else
      var p := peers[|peers| - 1];
      ScoreActions(peers[..|peers| - 1], env)
      + match ScoreGoodbye(env.scoreState(p))
        case Some(reason) => [SendGoodbye(p, reason)]
        case None => []
  }

  /** The healthy peers the scoring loop collects, in order. */
  function HealthyAmong(peers: seq<PeerId>, env: Collaborators): (r: seq<PeerId>)
    ensures forall p :: p in r <==> p in peers && env.scoreState(p) == Healthy
  {
    if peers == [] then []
    else
      var p := peers[|peers| - 1];
      HealthyAmong(peers[..|peers| - 1], env) + if env.scoreState(p) == Healthy then [p] else []
  }

  /** What the heartbeat tells the prioritiser about each peer: missing metadata or score reads as empty or zero. */
  function PeerInfos(peers: seq<PeerId>, metadata: map<PeerId, Metadata>, rpcScore: map<PeerId, real>)
    : (r: seq<PeerInfo>)
    ensures |r| == |peers|
    ensures forall i | 0 <= i < |peers| :: r[i].id == peers[i]
  {
    seq(|peers|, i requires 0 <= i < |peers| =>
      PeerInfo(peers[i],
               if peers[i] in metadata then metadata[peers[i]].attnets else [],
               if peers[i] in rpcScore then rpcScore[peers[i]] else 0.0))
  }

  /** The prioritiser's answer: it is given every connected peer, whatever its score state. */
  function Prioritized(connected: seq<PeerId>, subnets: OrderedMap<SubnetId, Slot>, currentSlot: Slot,
                       metadata: map<PeerId, Metadata>, opts: PeerManagerOpts, env: Collaborators): Prioritization
  {
    env.prioritizePeers(PeerInfos(connected, metadata, env.rpcScore), ActiveSubnets(subnets, currentSlot), opts)
  }

  /** The discovery calls the heartbeat makes on the prioritiser's answer. */
  function DiscoveryActions(pr: Prioritization): seq<Action> {
    (if |pr.discv5Queries| > 0 then [DiscoverSubnetPeers(pr.discv5Queries)] else [])
    + (if pr.peersToConnect > 0 then [DiscoverPeers(pr.peersToConnect)] else [])
  }

  /** All the calls one heartbeat makes. */
  function HeartbeatActions(connected: seq<PeerId>, subnets: OrderedMap<SubnetId, Slot>, currentSlot: Slot,
                            metadata: map<PeerId, Metadata>, opts: PeerManagerOpts, env: Collaborators): seq<Action>
  {
    var pr := Prioritized(connected, subnets, currentSlot, metadata, opts, env);
    ScoreActions(connected, env) + DiscoveryActions(pr) + GoodbyeEach(pr.peersToDisconnect, TooManyPeers)
  }

  /**
   * The heartbeat says goodbye with reason banned to exactly the banned
   * connected peers, with reason score-too-low to exactly the peers the score
   * store wants disconnected, and with reason too-many-peers to exactly the
   * peers the prioritiser picks.
   */
  lemma HeartbeatGoodbyes(connected: seq<PeerId>, subnets: OrderedMap<SubnetId, Slot>, currentSlot: Slot,
                          metadata: map<PeerId, Metadata>, opts: PeerManagerOpts, env: Collaborators, p: PeerId)
    ensures var actions := HeartbeatActions(connected, subnets, currentSlot, metadata, opts, env);
            var pr := Prioritized(connected, subnets, currentSlot, metadata, opts, env);
            && (SendGoodbye(p, GoodbyeReason.Banned) in actions <==> p in connected && env.scoreState(p) == ScoreState.Banned)
            && (SendGoodbye(p, ScoreTooLow) in actions <==> p in connected && env.scoreState(p) == Disconnected)
            && (SendGoodbye(p, TooManyPeers) in actions <==> p in pr.peersToDisconnect)
            && (SendGoodbye(p, ClientShutdown) !in actions && SendGoodbye(p, IrrelevantNetwork) !in actions)
  {
    var pr := Prioritized(connected, subnets, currentSlot, metadata, opts, env);
    var scored := ScoreActions(connected, env);
    var discovery := DiscoveryActions(pr);
    var evictions := GoodbyeEach(pr.peersToDisconnect, TooManyPeers);
    GoodbyeEachMembers(pr.peersToDisconnect, TooManyPeers);
    forall reason ensures SendGoodbye(p, reason) in scored + discovery + evictions <==>
                          SendGoodbye(p, reason) in scored || SendGoodbye(p, reason) in evictions {
      assert SendGoodbye(p, reason) !in discovery;
    }
    assert SendGoodbye(p, TooManyPeers) !in scored;
    assert SendGoodbye(p, GoodbyeReason.Banned) !in evictions;
    assert SendGoodbye(p, ScoreTooLow) !in evictions;
    assert SendGoodbye(p, ClientShutdown) !in evictions && SendGoodbye(p, ClientShutdown) !in scored;
    assert SendGoodbye(p, IrrelevantNetwork) !in evictions && SendGoodbye(p, IrrelevantNetwork) !in scored;
  }

  /**
   * The heartbeat asks discovery for subnet peers only when the prioritiser
   * names some subnet, and for more peers only when it asks for a positive
   * number of them.
   */
  lemma HeartbeatDiscovery(connected: seq<PeerId>, subnets: OrderedMap<SubnetId, Slot>, currentSlot: Slot,
                           metadata: map<PeerId, Metadata>, opts: PeerManagerOpts, env: Collaborators)
    ensures var actions := HeartbeatActions(connected, subnets, currentSlot, metadata, opts, env);
            var pr := Prioritized(connected, subnets, currentSlot, metadata, opts, env);
            && (forall q :: DiscoverSubnetPeers(q) in actions <==> q == pr.discv5Queries && |q| > 0)
            && (forall n :: DiscoverPeers(n) in actions <==> n == pr.peersToConnect && n > 0)
  {
    var pr := Prioritized(connected, subnets, currentSlot, metadata, opts, env);
    var scored := ScoreActions(connected, env);
    var discovery := DiscoveryActions(pr);
    var evictions := GoodbyeEach(pr.peersToDisconnect, TooManyPeers);
    GoodbyeEachMembers(pr.peersToDisconnect, TooManyPeers);
    forall q ensures DiscoverSubnetPeers(q) in scored + discovery + evictions <==> DiscoverSubnetPeers(q) in discovery {
      InConcat3(scored, discovery, evictions, DiscoverSubnetPeers(q));
    }
    forall n ensures DiscoverPeers(n) in scored + discovery + evictions <==> DiscoverPeers(n) in discovery {
      InConcat3(scored, discovery, evictions, DiscoverPeers(n));
    }
  }

  /** The heartbeat treats as active exactly the subnets whose slot is not behind the current one. */
  lemma ActiveSubnetsExact(subnets: OrderedMap<SubnetId, Slot>, currentSlot: Slot)
    requires subnets.Valid()
    ensures Distinct(ActiveSubnets(subnets, currentSlot))
    ensures forall k :: k in ActiveSubnets(subnets, currentSlot) <==> k in subnets.vals && subnets.vals[k] >= currentSlot
  {
    ActiveAmongDistinct(subnets.keys, subnets.vals, currentSlot);
  }

  /**
   * Because the prioritiser is given every connected peer, a banned peer it
   * picks for eviction is told goodbye twice in one heartbeat.
   */
  lemma BannedPeerMayBeEvictedTwice(connected: seq<PeerId>, subnets: OrderedMap<SubnetId, Slot>, currentSlot: Slot,
                                    metadata: map<PeerId, Metadata>, opts: PeerManagerOpts, env: Collaborators, p: PeerId)
    requires p in connected && env.scoreState(p) == ScoreState.Banned
    requires p in Prioritized(connected, subnets, currentSlot, metadata, opts, env).peersToDisconnect
    ensures var actions := HeartbeatActions(connected, subnets, currentSlot, metadata, opts, env);
            SendGoodbye(p, GoodbyeReason.Banned) in actions && SendGoodbye(p, TooManyPeers) in actions
  {
    HeartbeatGoodbyes(connected, subnets, currentSlot, metadata, opts, env, p);
  }

  /** On shutdown, every connected peer is told goodbye with reason client-shutdown. */
  function ShutdownActions(table: ConnectionTable): (r: seq<Action>)
    ensures forall p :: SendGoodbye(p, ClientShutdown) in r <==> p in ConnectedPeers(table)
    ensures forall a | a in r :: a.SendGoodbye? && a.reason == ClientShutdown
  {
    GoodbyeEachMembers(ConnectedPeers(table), ClientShutdown);
    GoodbyeEach(ConnectedPeers(table), ClientShutdown)
  }
}
